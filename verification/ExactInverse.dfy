/** The divisions of SymMatrix::inverse are exact: its Gauss-Jordan elimination never leaves the ring
    (src/cas/SymMatrix.cpp:425-468). */
module ExactInverse {
  import opened LinearAlgebra
  import opened MatrixInverse
  import opened Determinant
  import opened Bareiss

  /** The numerators of the inverse over a common denominator. */
  datatype Fractions = NotInvertible | Over(numerators: IntMatrix, det: int)

  ghost predicate Table(m: IntMatrix, rows: nat, cols: nat) {
    |m| == rows && forall i :: 0 <= i < rows ==> |m[i]| == cols
  }

  function IntDelta(i: int, j: int): int {
    if i == j then 1 else 0
  }

  // ----- The table as minors -----

  /** The table with the unit rows below it. */
  function Stacked(b: IntMatrix, n: nat): (r: IntMatrix)
    requires Table(b, n, 2 * n)
    ensures Square(r) && |r| == 2 * n
    ensures forall i, j :: 0 <= i < 2 * n && 0 <= j < 2 * n ==> r[i][j] == if i < n then b[i][j] else IntDelta(i - n, j)
  {
    b + seq(n, i => seq(2 * n, j => IntDelta(i, j)))
  }

  /** What the entry in row `i` and column `j` is after `k` steps. The rows below the pivots hold bordered minors; the
      rows of the pivots hold minors that are bordered by their unit row. */
  function EntryMinor(s: IntMatrix, n: nat, k: nat, i: nat, j: nat): int
    requires Square(s) && |s| == 2 * n && k <= n && i < n && j < 2 * n
  {
    if i >= k then Det(Border(s, k, i, j)) else -Det(Border(s, k, n + i, j))
  }

  ghost predicate HoldsAll(aug: IntMatrix, s: IntMatrix, n: nat, k: nat)
    requires Table(aug, n, 2 * n) && Square(s) && |s| == 2 * n && k <= n
  {
    forall i, j :: 0 <= i < n && k <= j < 2 * n ==> aug[i][j] == EntryMinor(s, n, k, i, j)
  }

  ghost predicate UnitRow(row: Row, at: int) {
    forall j :: 0 <= j < |row| ==> row[j] == IntDelta(at, j)
  }

  /** A last row that is a unit row: the determinant is, up to the sign, that of what is left without its column. */
  lemma {:induction false} UnitLastRow(m: IntMatrix, rest: IntMatrix)
    requires Square(m) && Square(rest) && |m| == |rest| + 1 && |rest| > 0
    requires UnitRow(m[|m| - 1], |m| - 2)
    requires forall i, j :: 0 <= i < |rest| && 0 <= j < |rest| ==>
      rest[i][j] == m[i][if j < |rest| - 1 then j else |rest|]
    ensures Det(m) == -Det(rest)
    decreases |m|
  {
    hide Det;
    var n := |rest|;
    if n == 1 {
      SizeTwo(m);
      SizeOne(rest);
      assert m[1][0] == 1 && m[1][1] == 0;
    } else {
      UnitExpansion(m, rest, n);
      assert Expansion(m, n + 1) == Expansion(m, n) + Term(m, n);
      assert m[n][0] == 0;
      NoTerm(m, n);
      DetIs(m);
      DetIs(rest);
    }
  }

  lemma DetIs(m: IntMatrix)
    requires Square(m) && |m| > 0
    ensures Det(m) == Expansion(m, |m|)
  {
  }

  lemma NoTerm(m: IntMatrix, i: nat)
    requires Square(m) && i < |m| && m[i][0] == 0
    ensures Term(m, i) == 0
  {
  }

  lemma {:induction false} UnitExpansion(m: IntMatrix, rest: IntMatrix, k: nat)
    requires Square(m) && Square(rest) && |m| == |rest| + 1 && |rest| > 1 && k <= |rest|
    requires UnitRow(m[|m| - 1], |m| - 2)
    requires forall i, j :: 0 <= i < |rest| && 0 <= j < |rest| ==>
      rest[i][j] == m[i][if j < |rest| - 1 then j else |rest|]
    ensures Expansion(m, k) == -Expansion(rest, k)
    decreases |m|, 0, k
  {
    hide Det;
    if k > 0 {
      UnitExpansion(m, rest, k - 1);
      UnitLastRow(Minor(m, k - 1), Minor(rest, k - 1));
      SameTerm(m, rest, k - 1);
    }
  }

  lemma SameTerm(m: IntMatrix, rest: IntMatrix, i: nat)
    requires Square(m) && Square(rest) && i < |rest| < |m| && m[i][0] == rest[i][0]
    requires Det(Minor(m, i)) == -Det(Minor(rest, i))
    ensures Term(m, i) == -Term(rest, i)
  {
    hide Det, Sign, Minor;
    TermNegates(Sign(i) * rest[i][0], Det(Minor(rest, i)));
  }

  /** The unit row of the new pivot takes its place in the border. */
  lemma UnitRowMinor(s: IntMatrix, n: nat, k: nat, j: nat)
    requires Square(s) && |s| == 2 * n && k < n && k < j < 2 * n
    requires UnitRow(s[n + k], k)
    ensures Det(Border(s, k + 1, n + k, j)) == -Det(Border(s, k, k, j))
  {
    hide Det;
    var m, rest := Border(s, k + 1, n + k, j), Border(s, k, k, j);
    forall c | 0 <= c < |m[k + 1]| ensures m[k + 1][c] == IntDelta(k, c) {
      assert m[k + 1][c] == s[n + k][if c < k + 1 then c else j];
    }
    UnitLastRow(m, rest);
  }

  /** One step's entry is the next minor, in the rows above the pivot as well as below it. */
  lemma StepExact(aug: IntMatrix, s: IntMatrix, n: nat, k: nat, i: nat, j: nat)
    requires Table(aug, n, 2 * n) && Square(s) && |s| == 2 * n && k < n && i < n && i != k && k < j < 2 * n
    requires HoldsAll(aug, s, n, k) && LeadingNonZero(s, k)
    ensures aug[i][j] * aug[k][k] - aug[i][k] * aug[k][j] == Det(Lead(s, k)) * EntryMinor(s, n, k + 1, i, j)
  {
    hide Det, Border, Lead, LeadingNonZero;
    if i > k {
      CrossMinor(s, k, i, j);
    } else {
      CrossMinor(s, k, n + i, j);
      Negated(Det(Border(s, k, n + i, j)), Det(Border(s, k, k, k)), Det(Border(s, k, n + i, k)),
      Det(Border(s, k, k, j)),
              Det(Lead(s, k)), Det(Border(s, k + 1, n + i, j)));
    }
  }

  lemma Negated(x: int, p: int, f: int, y: int, l: int, e: int)
    requires x * p - f * y == l * e
    ensures -x * p - -f * y == l * -e
  {
  }

  // ----- One step -----

  function Real(m: IntMatrix): (r: Matrix)
    ensures |r| == |m|
    ensures forall i :: 0 <= i < |m| ==> |r[i]| == |m[i]| && forall j :: 0 <= j < |m[i]| ==> r[i][j] == m[i][j] as real
  {
    seq(|m|, i requires 0 <= i < |m| => seq(|m[i]|, j requires 0 <= j < |m[i]| => m[i][j] as real))
  }

  /** What one step makes of an entry, without division. */
  ghost predicate Stepped(aug0: IntMatrix, aug: IntMatrix, n: nat, k: nat, prev: int, i: nat, j: nat)
    requires Table(aug0, n, 2 * n) && Table(aug, n, 2 * n) && k < n && i < n && j < 2 * n
  {
    if i != k && j > k then aug[i][j] * prev == aug0[i][j] * aug0[k][k] - aug0[i][k] * aug0[k][j]
    else aug[i][j] == aug0[i][j]
  }

  ghost predicate RowStepped(aug0: IntMatrix, row: Row, n: nat, k: nat, prev: int, s: IntMatrix, i: nat, upTo: nat)
    requires Table(aug0, n, 2 * n) && |row| == 2 * n && k < n && i < n && i != k && Square(s) && |s| == 2 * n
  {
    && (forall j: nat :: k < j < upTo && j < 2 * n ==>
          row[j] == EntryMinor(s, n, k + 1, i, j) && row[j] * prev == aug0[i][j] * aug0[k][k] - aug0[i][k] * aug0[k][j])
    && (forall j: nat :: j < 2 * n && !(k < j < upTo) ==> row[j] == aug0[i][j])
  }

  /** One row of a step; every division comes out even. */
  method EliminateRow(aug: IntMatrix, n: nat, k: nat, prev: int, i: nat, ghost s: IntMatrix) returns (row: Row)
    requires Table(aug, n, 2 * n) && Square(s) && |s| == 2 * n && k < n && i < n && i != k
    requires HoldsAll(aug, s, n, k) && LeadingNonZero(s, k) && prev == Det(Lead(s, k)) && prev != 0
    ensures |row| == 2 * n && RowStepped(aug, row, n, k, prev, s, i, 2 * n)
  {
    hide Det, LeadingNonZero, Lead, Border, EntryMinor, HoldsAll;
    row := aug[i];
    for j := k + 1 to 2 * n
      invariant |row| == 2 * n && RowStepped(aug, row, n, k, prev, s, i, j)
    {
      var diff := row[j] * aug[k][k] - row[k] * aug[k][j];
      StepExact(aug, s, n, k, i, j);
      Divisible(prev, EntryMinor(s, n, k + 1, i, j));
      row := row[j := ExactDivide(diff, prev)];
    }
  }

  /** One step: clears column `k` in every row but the pivot row. */
  method EliminateExactly(aug0: IntMatrix, n: nat, k: nat, prev: int, ghost s: IntMatrix) returns (aug: IntMatrix)
    requires Table(aug0, n, 2 * n) && Square(s) && |s| == 2 * n && k < n
    requires HoldsAll(aug0, s, n, k) && LeadingNonZero(s, k) && prev == Det(Lead(s, k)) && prev != 0
    ensures Table(aug, n, 2 * n)
    ensures forall i: nat, j: nat :: i < n && j < 2 * n ==> Stepped(aug0, aug, n, k, prev, i, j)
    ensures forall i: nat, j: nat :: i < n && i != k && k < j < 2 * n ==> aug[i][j] == EntryMinor(s, n, k + 1, i, j)
  {
    hide Det, LeadingNonZero, Lead, Border, EntryMinor, HoldsAll, RowStepped;
    aug := aug0;
    for i := 0 to n
      invariant Table(aug, n, 2 * n) && aug[k] == aug0[k] && forall r :: i <= r < n ==> aug[r] == aug0[r]
      invariant forall r: nat :: r < i && r != k ==> RowStepped(aug0, aug[r], n, k, prev, s, r, 2 * n)
    {
      if i == k {
        continue;
      }
      var row := EliminateRow(aug0, n, k, prev, i, s);
      aug := aug[i := row];
    }
    AllStepped(aug0, aug, n, k, prev, s);
  }

  lemma AllStepped(aug0: IntMatrix, aug: IntMatrix, n: nat, k: nat, prev: int, s: IntMatrix)
    requires Table(aug0, n, 2 * n) && Table(aug, n, 2 * n) && Square(s) && |s| == 2 * n && k < n && aug[k] == aug0[k]
    requires forall r: nat :: r < n && r != k ==> RowStepped(aug0, aug[r], n, k, prev, s, r, 2 * n)
    ensures forall i: nat, j: nat :: i < n && j < 2 * n ==> Stepped(aug0, aug, n, k, prev, i, j)
    ensures forall i: nat, j: nat :: i < n && i != k && k < j < 2 * n ==> aug[i][j] == EntryMinor(s, n, k + 1, i, j)
  {
    hide EntryMinor;
    forall i: nat, j: nat | i < n && j < 2 * n ensures Stepped(aug0, aug, n, k, prev, i, j) {
      if i != k { assert RowStepped(aug0, aug[i], n, k, prev, s, i, 2 * n); }
    }
  }

  /** The pivot row keeps its entries, which are the next minors too. */
  lemma NextMinors(aug0: IntMatrix, aug: IntMatrix, b: IntMatrix, n: nat, k: nat)
    requires Table(aug0, n, 2 * n) && Table(aug, n, 2 * n) && Table(b, n, 2 * n) && k < n
    requires HoldsAll(aug0, Stacked(b, n), n, k) && forall j :: 0 <= j < 2 * n ==> aug[k][j] == aug0[k][j]
    requires forall i: nat, j: nat :: i < n && i != k && k < j < 2 * n ==>
      aug[i][j] == EntryMinor(Stacked(b, n), n, k + 1, i, j)
    ensures HoldsAll(aug, Stacked(b, n), n, k + 1)
  {
    hide Det, Border;
    var s := Stacked(b, n);
    forall i, j | 0 <= i < n && k + 1 <= j < 2 * n ensures aug[i][j] == EntryMinor(s, n, k + 1, i, j) {
      if i == k {
        UnitRowMinor(s, n, k, j);
      }
    }
  }

  /** On real numbers this is the step of the elimination over a field. */
  lemma RealStep(aug0: IntMatrix, aug: IntMatrix, n: nat, k: nat, prev: int)
    requires Table(aug0, n, 2 * n) && Table(aug, n, 2 * n) && k < n && prev != 0
    requires forall i: nat, j: nat :: i < n && j < 2 * n ==> Stepped(aug0, aug, n, k, prev, i, j)
    ensures StepDone(Real(aug0), Real(aug), n, k, n, prev as real)
  {
    hide MatrixInverse.Cleared;
    var x, y, p := Real(aug0), Real(aug), prev as real;
    forall i: nat | i < n
      ensures if i != k then RowCleared(y[i], x[i], x[k], k, 2 * n, p) else y[i] == x[i]
    {
      forall j: nat | j < 2 * n
        ensures y[i][j] ==
          if i != k && k < j then MatrixInverse.Cleared(x[i][j], x[k][k], x[i][k], x[k][j], p) else x[i][j]
      {
        assert Stepped(aug0, aug, n, k, prev, i, j);
        if i != k && k < j { RealQuotient(aug0[i][j], aug0[k][k], aug0[i][k], aug0[k][j], prev, aug[i][j]); }
      }
    }
  }

  lemma RealTimes(x: int, y: int)
    ensures (x * y) as real == x as real * y as real
  {
  }

  lemma RealQuotient(x: int, p: int, f: int, y: int, prev: int, q: int)
    requires prev != 0 && q * prev == x * p - f * y
    ensures q as real == MatrixInverse.Cleared(x as real, p as real, f as real, y as real, prev as real)
  {
    RealTimes(q, prev);
    RealTimes(x, p);
    RealTimes(f, y);
    assert q as real * prev as real == x as real * p as real - f as real * y as real;
  }

  // ----- Exchanging rows -----

  lemma SwapAll(aug: IntMatrix, b: IntMatrix, n: nat, k: nat, r: nat)
    requires Table(aug, n, 2 * n) && Table(b, n, 2 * n) && k <= r < n
    requires HoldsAll(aug, Stacked(b, n), n, k) && LeadingNonZero(Stacked(b, n), k)
    ensures Table(Swap(aug, k, r), n, 2 * n) && Table(Swap(b, k, r), n, 2 * n)
    ensures HoldsAll(Swap(aug, k, r), Stacked(Swap(b, k, r), n), n, k)
    ensures LeadingNonZero(Stacked(Swap(b, k, r), n), k)
    ensures Lead(Stacked(Swap(b, k, r), n), k) == Lead(Stacked(b, n), k)
    ensures Lead(Stacked(Swap(b, k, r), n), n) == Swap(Lead(Stacked(b, n), n), k, r)
  {
    hide Det, Border, Lead;
    var s, t, m := Stacked(b, n), Stacked(Swap(b, k, r), n), Swap(aug, k, r);
    forall i, j | 0 <= i < n && k <= j < 2 * n ensures m[i][j] == EntryMinor(t, n, k, i, j) {
      var i' := if i == k then r else if i == r then k else i;
      if i >= k {
        SameMatrix(Border(t, k, i, j), Border(s, k, i', j));
      } else {
        SameMatrix(Border(t, k, n + i, j), Border(s, k, n + i, j));
      }
    }
    forall l | 1 <= l <= k ensures Det(Lead(t, l)) != 0 {
      SameMatrix(Lead(t, l), Lead(s, l));
    }
    SameMatrix(Lead(t, k), Lead(s, k));
    SameMatrix(Lead(t, n), Swap(Lead(s, n), k, r));
  }

  lemma RealSwap(aug: IntMatrix, k: nat, r: nat)
    requires k < |aug| && r < |aug|
    ensures Real(Swap(aug, k, r)) == Real(aug)[k := Real(aug)[r]][r := Real(aug)[k]]
  {
    var x := Real(aug);
    forall i | 0 <= i < |aug| ensures Real(Swap(aug, k, r))[i] == x[k := x[r]][r := x[k]][i] { }
  }

  // ----- The elimination -----

  /** What holds before step `k`; `sign` is that of the row exchanges so far. */
  ghost predicate Going(a: IntMatrix, aug: IntMatrix, b: IntMatrix, n: nat, k: nat, prev: int, sign: int)
    requires Square(a) && |a| == n
  {
    && Table(aug, n, 2 * n) && Table(b, n, 2 * n) && k <= n
    && HoldsAll(aug, Stacked(b, n), n, k) && LeadingNonZero(Stacked(b, n), k)
    && prev == Det(Lead(Stacked(b, n), k)) && prev != 0
    && (sign == 1 || sign == -1) && sign * Det(Lead(Stacked(b, n), n)) == Det(a)
    && SameKernel(Augment(Real(a), n), Full(Real(aug), n, k, prev as real))
  }

  function IntAugment(a: IntMatrix, n: nat): (r: IntMatrix)
    requires Square(a) && |a| == n
    ensures Table(r, n, 2 * n)
    ensures forall i, j :: 0 <= i < n && 0 <= j < 2 * n ==> r[i][j] == if j < n then a[i][j] else IntDelta(i, j - n)
  {
    seq(n, i requires 0 <= i < n => a[i] + seq(n, j => IntDelta(i, j)))
  }

  lemma Starts(a: IntMatrix, n: nat)
    requires Square(a) && |a| == n > 0
    ensures Going(a, IntAugment(a, n), IntAugment(a, n), n, 0, 1, 1)
  {
    hide Det, Border, SameKernel, Full, Augment;
    var b := IntAugment(a, n);
    var s := Stacked(b, n);
    forall i, j | 0 <= i < n && 0 <= j < 2 * n ensures b[i][j] == EntryMinor(s, n, 0, i, j) {
      SizeOne(Border(s, 0, i, j));
      assert Border(s, 0, i, j)[0][0] == s[i][j];
    }
    EmptyMatrix(Lead(s, 0));
    SameMatrix(Lead(s, n), a);
    RealAugment(a, n);
    StartsFull(Real(b), n);
  }

  lemma RealAugment(a: IntMatrix, n: nat)
    requires Square(a) && |a| == n
    ensures Real(IntAugment(a, n)) == Augment(Real(a), n)
  {
    var x, y := Real(IntAugment(a, n)), Augment(Real(a), n);
    forall i | 0 <= i < n ensures x[i] == y[i] {
      forall j | 0 <= j < 2 * n ensures x[i][j] == y[i][j] { }
    }
  }

  lemma GoesOnSwapped(a: IntMatrix, aug: IntMatrix, b: IntMatrix, n: nat, k: nat, prev: int, sign: int, r: nat)
    requires Square(a) && |a| == n && Going(a, aug, b, n, k, prev, sign) && k <= r < n
    ensures Going(a, Swap(aug, k, r), Swap(b, k, r), n, k, prev, if r == k then sign else -sign)
  {
    hide Det, Border, Lead, SameKernel, Full, Augment, HoldsAll, LeadingNonZero;
    SwapAll(aug, b, n, k, r);
    RealSwap(aug, k, r);
    SwapFull(Real(aug), n, k, r, prev as real);
    KernelChain(Augment(Real(a), n), Full(Real(aug), n, k, prev as real),
      Full(Real(Swap(aug, k, r)), n, k, prev as real));
    if r == k {
      assert Swap(Lead(Stacked(b, n), n), k, k) == Lead(Stacked(b, n), n);
    } else {
      SwapRows(Lead(Stacked(b, n), n), k, r);
    }
  }

  lemma GoesOn(a: IntMatrix, aug0: IntMatrix, aug: IntMatrix, b: IntMatrix, n: nat, k: nat, prev: int, sign: int)
    requires Square(a) && |a| == n && Going(a, aug0, b, n, k, prev, sign) && k < n && aug0[k][k] != 0
    requires Table(aug, n, 2 * n)
    requires forall i: nat, j: nat :: i < n && j < 2 * n ==> Stepped(aug0, aug, n, k, prev, i, j)
    requires forall i: nat, j: nat :: i < n && i != k && k < j < 2 * n ==>
      aug[i][j] == EntryMinor(Stacked(b, n), n, k + 1, i, j)
    ensures Going(a, aug, b, n, k + 1, aug0[k][k], sign)
  {
    hide Det, Border, Lead, SameKernel, Full, Augment, EntryMinor;
    var s := Stacked(b, n);
    forall j: nat | j < 2 * n ensures aug[k][j] == aug0[k][j] { assert Stepped(aug0, aug, n, k, prev, k, j); }
    PivotIsMinor(aug0, s, n, k);
    NextMinors(aug0, aug, b, n, k);
    LeadingGrows(s, k);
    RealStep(aug0, aug, n, k, prev);
    hide HoldsAll, LeadingNonZero, StepDone, Stepped;
    FullAdvances(Real(aug0), Real(aug), n, k, prev as real);
    KernelChain(Augment(Real(a), n), Full(Real(aug0), n, k, prev as real),
      Full(Real(aug), n, k + 1, aug0[k][k] as real));
  }

  lemma PivotIsMinor(aug: IntMatrix, s: IntMatrix, n: nat, k: nat)
    requires Table(aug, n, 2 * n) && Square(s) && |s| == 2 * n && k < n && HoldsAll(aug, s, n, k)
    ensures aug[k][k] == Det(Lead(s, k + 1))
  {
    hide Det;
    PivotIsLead(s, k);
  }

  /** Without a pivot the determinant is zero. */
  lemma NoPivotLeft(a: IntMatrix, aug: IntMatrix, b: IntMatrix, n: nat, k: nat, prev: int, sign: int)
    requires Square(a) && |a| == n && Going(a, aug, b, n, k, prev, sign) && k < n
    requires forall i :: k <= i < n ==> aug[i][k] == 0
    ensures Det(a) == 0
  {
    hide Det, SameKernel, Full, Augment, Stacked;
    var s := Stacked(b, n);
    var c := Lead(s, n);
    forall i | k <= i < n ensures Det(Border(c, k, i, k)) == 0 {
      SameMatrix(Border(c, k, i, k), Border(s, k, i, k));
      assert aug[i][k] == EntryMinor(s, n, k, i, k);
    }
    forall l | 1 <= l <= k ensures Det(Lead(c, l)) != 0 { SameMatrix(Lead(c, l), Lead(s, l)); }
    NoPivot(c, k);
  }

  // ----- The inverse -----

  function IntDot(a: Row, b: Row, upTo: nat): int
    requires upTo <= |a| && upTo <= |b|
  {
    if upTo == 0 then 0 else IntDot(a, b, upTo - 1) + a[upTo - 1] * b[upTo - 1]
  }

  function IntColumn(m: IntMatrix, c: nat): Row
    requires forall i :: 0 <= i < |m| ==> c < |m[i]|
  {
    seq(|m|, i requires 0 <= i < |m| => m[i][c])
  }

  /** a * b is `d` times the identity. */
  ghost predicate ProductIsMultiple(a: IntMatrix, b: IntMatrix, n: nat, d: int)
    requires Table(a, n, n) && Table(b, n, n)
  {
    forall i, j :: 0 <= i < n && 0 <= j < n ==> IntDot(a[i], IntColumn(b, j), n) == if i == j then d else 0
  }

  lemma {:induction false} ScaledDot(a: Row, b: Row, x: Vector, y: Vector, d: int, upTo: nat)
    requires upTo <= |a| && upTo <= |b| && upTo <= |x| && upTo <= |y| && d != 0
    requires forall j :: 0 <= j < upTo ==> d as real * (x[j] * y[j]) == (a[j] * b[j]) as real
    ensures d as real * Dot(x, y, upTo) == IntDot(a, b, upTo) as real
  {
    if upTo > 0 {
      ScaledDot(a, b, x, y, d, upTo - 1);
      Distribute(d as real, Dot(x, y, upTo - 1), x[upTo - 1] * y[upTo - 1]);
    }
  }

  lemma Distribute(d: real, x: real, y: real)
    ensures d * (x + y) == d * x + d * y
  {
  }

  lemma TimesQuotient(a: int, b: int, d: int, x: real, y: real)
    requires d != 0
    requires (x == a as real && y == b as real / d as real) || (x == a as real / d as real && y == b as real)
    ensures d as real * (x * y) == (a * b) as real
  {
    RealTimes(a, b);
    var e, u, v := d as real, a as real, b as real;
    if x == u && y == v / e {
      Undivide(e, v);
      assert e * (u * (v / e)) == u * (e * (v / e));
    } else {
      Undivide(e, u);
      assert e * ((u / e) * v) == (e * (u / e)) * v;
    }
  }

  /** The numerators of `x` over `d`. */
  ghost predicate Quotients(x: Matrix, nums: IntMatrix, n: nat, d: int)
    requires Table(nums, n, n) && Shape(x, n, n) && d != 0
  {
    forall i, j :: 0 <= i < n && 0 <= j < n ==> x[i][j] == nums[i][j] as real / d as real
  }

  lemma RightProduct(a: IntMatrix, nums: IntMatrix, x: Matrix, n: nat, d: int, i: nat, j: nat)
    requires Table(a, n, n) && Table(nums, n, n) && Shape(x, n, n) && d != 0 && i < n && j < n
    requires Quotients(x, nums, n, d) && ProductIsIdentity(Real(a), x, n)
    ensures IntDot(a[i], IntColumn(nums, j), n) == if i == j then d else 0
  {
    hide Dot, IntDot;
    var r := Real(a);
    forall k | 0 <= k < n ensures d as real * (r[i][k] * Column(x, j)[k]) == (a[i][k] * IntColumn(nums, j)[k]) as real {
      TimesQuotient(a[i][k], nums[k][j], d, r[i][k], x[k][j]);
    }
    ScaledDot(a[i], IntColumn(nums, j), r[i], Column(x, j), d, n);
  }

  lemma LeftProduct(a: IntMatrix, nums: IntMatrix, x: Matrix, n: nat, d: int, i: nat, j: nat)
    requires Table(a, n, n) && Table(nums, n, n) && Shape(x, n, n) && d != 0 && i < n && j < n
    requires Quotients(x, nums, n, d) && ProductIsIdentity(x, Real(a), n)
    ensures IntDot(nums[i], IntColumn(a, j), n) == if i == j then d else 0
  {
    hide Dot, IntDot;
    var r := Real(a);
    forall k | 0 <= k < n ensures d as real * (x[i][k] * Column(r, j)[k]) == (nums[i][k] * IntColumn(a, j)[k]) as real {
      TimesQuotient(nums[i][k], a[k][j], d, x[i][k], r[k][j]);
    }
    ScaledDot(nums[i], IntColumn(a, j), x[i], Column(r, j), d, n);
  }

  lemma BothProducts(a: IntMatrix, nums: IntMatrix, x: Matrix, n: nat, d: int)
    requires Table(a, n, n) && Table(nums, n, n) && Shape(x, n, n) && d != 0
    requires Quotients(x, nums, n, d) && ProductIsIdentity(Real(a), x, n) && ProductIsIdentity(x, Real(a), n)
    ensures ProductIsMultiple(a, nums, n, d) && ProductIsMultiple(nums, a, n, d)
  {
    hide IntDot, Quotients, ProductIsIdentity;
    forall i, j | 0 <= i < n && 0 <= j < n
      ensures IntDot(a[i], IntColumn(nums, j), n) == (if i == j then d else 0)
      ensures IntDot(nums[i], IntColumn(a, j), n) == if i == j then d else 0
    {
      RightProduct(a, nums, x, n, d, i, j);
      LeftProduct(a, nums, x, n, d, i, j);
    }
  }

  lemma Finished(a: IntMatrix, aug: IntMatrix, b: IntMatrix, nums: IntMatrix, n: nat, prev: int, sign: int)
    requires Square(a) && |a| == n > 0 && Going(a, aug, b, n, n, prev, sign) && Table(nums, n, n)
    requires forall i, j :: 0 <= i < n && 0 <= j < n ==> nums[i][j] == aug[i][n + j]
    ensures ProductIsMultiple(a, nums, n, prev) && ProductIsMultiple(nums, a, n, prev)
    ensures prev == Det(a) || prev == -Det(a)
  {
    hide Det, Lead, Border, SameKernel, Full, Augment, HoldsAll, LeadingNonZero;
    var p := prev as real;
    var x := seq(n, i requires 0 <= i < n => seq(n, j requires 0 <= j < n => Real(aug)[i][n + j] / p));
    RightInverse(Real(a), Real(aug), x, n, p);
    LeftInverse(Real(a), Real(aug), x, n, p);
    BothProducts(a, nums, x, n, prev);
  }

  /** The elimination over the ring: it fails exactly for determinant zero, every division is exact, and the result is
      the inverse as numerators over the determinant, up to the sign of both. */
  method InvertExactly(a: IntMatrix, n: nat) returns (r: Fractions)
    requires Square(a) && |a| == n > 0
    ensures r.NotInvertible? <==> Det(a) == 0
    ensures r.Over? ==> r.det == Det(a) || r.det == -Det(a)
    ensures r.Over? ==>
      Table(r.numerators, n, n) && ProductIsMultiple(a, r.numerators, n, r.det) &&
        ProductIsMultiple(r.numerators, a, n, r.det)
  {
    hide Det, Lead, Border, SameKernel, Full, Augment, HoldsAll, LeadingNonZero, Stepped, ProductIsMultiple, EntryMinor;
    var aug := IntAugment(a, n);
    ghost var b := aug;
    var prev := 1;
    ghost var sign := 1;
    Starts(a, n);
    for k := 0 to n
      invariant Going(a, aug, b, n, k, prev, sign)
      invariant k == n ==> aug[n - 1][n - 1] == prev
    {
      var row := k;
      while row < n && aug[row][k] == 0
        invariant k <= row <= n && forall i :: k <= i < row ==> aug[i][k] == 0
      {
        row := row + 1;
      }
      if row == n {
        NoPivotLeft(a, aug, b, n, k, prev, sign);
        return NotInvertible;
      }
      GoesOnSwapped(a, aug, b, n, k, prev, sign, row);
      var found := aug[row][k];
      aug := Swap(aug, k, row);
      b := Swap(b, k, row);
      sign := if row == k then sign else -sign;
      assert aug[k][k] == found;
      var pivot := aug[k][k];
      ghost var before := aug;
      aug := EliminateExactly(aug, n, k, prev, Stacked(b, n));
      GoesOn(a, before, aug, b, n, k, prev, sign);
      assert aug[k][k] == pivot by {
        assert Stepped(before, aug, n, k, prev, k, k); PivotStays(before, aug, n, k, prev);
      }
      prev := pivot;
    }
    var det := aug[n - 1][n - 1];
    var nums := seq(n, i requires 0 <= i < n => seq(n, j requires 0 <= j < n => aug[i][n + j]));
    Finished(a, aug, b, nums, n, prev, sign);
    r := Over(nums, det);
  }

  lemma PivotStays(aug0: IntMatrix, aug: IntMatrix, n: nat, k: nat, prev: int)
    requires Table(aug0, n, 2 * n) && Table(aug, n, 2 * n) && k < n && Stepped(aug0, aug, n, k, prev, k, k)
    ensures aug[k][k] == aug0[k][k]
  {
  }
}
