/** SymMatrix::determinant: Bareiss' fraction-free elimination (src/cas/SymMatrix.cpp:329-374). */
module Bareiss {
  import opened Determinant
  import opened IntegerPower

  // ----- Clearing the first column -----

  /** Row `i` after its first entry is cleared against the first row, without division. */
  function ClearedRow(m: IntMatrix, i: nat): (r: Row)
    requires Square(m) && i < |m|
    ensures |r| == |m| && forall j :: 0 <= j < |m| ==> r[j] == m[i][j] * m[0][0] - m[i][0] * m[0][j]
  {
    seq(|m|, j requires 0 <= j < |m| => m[i][j] * m[0][0] - m[i][0] * m[0][j])
  }

  function Cleared(m: IntMatrix): (r: IntMatrix)
    requires Square(m) && |m| > 0
    ensures Square(r) && |r| == |m| - 1
    ensures forall i, j :: 0 <= i < |r| && 0 <= j < |r| ==>
      r[i][j] == m[i + 1][j + 1] * m[0][0] - m[i + 1][0] * m[0][j + 1]
  {
    seq(|m| - 1, i requires 0 <= i < |m| - 1 => ClearedRow(m, i + 1)[1..])
  }

  /** Rows 1..q-1 cleared. */
  function PartlyCleared(m: IntMatrix, q: nat): (r: IntMatrix)
    requires Square(m) && 0 < |m| && 1 <= q <= |m|
    ensures Square(r) && |r| == |m|
    ensures forall i :: 0 <= i < |m| ==> r[i] == if 1 <= i < q then ClearedRow(m, i) else m[i]
  {
    seq(|m|, i requires 0 <= i < |m| => if 1 <= i < q then ClearedRow(m, i) else m[i])
  }

  lemma {:induction false} ClearRows(m: IntMatrix, q: nat)
    requires Square(m) && 0 < |m| && 1 <= q <= |m|
    ensures Det(PartlyCleared(m, q)) == Pow(m[0][0], q - 1) * Det(m)
    decreases q
  {
    hide Det;
    if q == 1 {
      assert PartlyCleared(m, 1) == m;
    } else {
      ClearRows(m, q - 1);
      var before := PartlyCleared(m, q - 1);
      var r := q - 1;
      DetLinear(before, r, ClearedRow(m, r), m[r], m[0], m[0][0], -m[r][0]);
      assert before[r := ClearedRow(m, r)] == PartlyCleared(m, q);
      assert before[r := m[r]] == before;
      EqualRows(before[r := m[0]], 0, r);
      PowStep(m[0][0], q - 1, Det(m));
    }
  }

  lemma PowStep(p: int, n: nat, d: int)
    requires n > 0
    ensures p * (Pow(p, n - 1) * d) == Pow(p, n) * d
  {
    assert p * (Pow(p, n - 1) * d) == (p * Pow(p, n - 1)) * d;
  }

  lemma ClearedColumn(m: IntMatrix)
    requires Square(m) && |m| > 0
    ensures forall i :: 1 <= i < |m| ==> PartlyCleared(m, |m|)[i][0] == 0
    ensures PartlyCleared(m, |m|)[0][0] == m[0][0]
  {
    forall i | 1 <= i < |m| ensures PartlyCleared(m, |m|)[i][0] == 0 {
      assert ClearedRow(m, i)[0] == m[i][0] * m[0][0] - m[i][0] * m[0][0];
    }
  }

  /** What clearing the first column does to the determinant. */
  lemma ClearOnce(m: IntMatrix)
    requires Square(m) && |m| > 0
    ensures Det(m) * Pow(m[0][0], |m| - 1) == m[0][0] * Det(Cleared(m))
  {
    hide Det, Pow, Cleared, PartlyCleared, Minor;
    var all := PartlyCleared(m, |m|);
    ClearRows(m, |m|);
    ClearedColumn(m);
    FirstColumn(all);
    MinorOfCleared(m);
    Commute(Pow(m[0][0], |m| - 1), Det(m));
  }

  lemma Commute(x: int, y: int)
    ensures x * y == y * x
  {
  }

  lemma MinorOfCleared(m: IntMatrix)
    requires Square(m) && |m| > 0
    ensures Minor(PartlyCleared(m, |m|), 0) == Cleared(m)
  {
    var all := PartlyCleared(m, |m|);
    forall i | 0 <= i < |m| - 1 ensures Minor(all, 0)[i] == Cleared(m)[i] { }
  }

  // ----- Leading and bordered minors -----

  /** The first `k` rows and columns. */
  function Lead(m: IntMatrix, k: nat): (r: IntMatrix)
    requires Square(m) && k <= |m|
    ensures Square(r) && |r| == k
    ensures forall a, b :: 0 <= a < k && 0 <= b < k ==> r[a][b] == m[a][b]
  {
    seq(k, a requires 0 <= a < k => m[a][..k])
  }

  /** The first `k` rows and columns, bordered by row `i` and column `j`. */
  function Border(m: IntMatrix, k: nat, i: nat, j: nat): (r: IntMatrix)
    requires Square(m) && k < |m| && i < |m| && j < |m|
    ensures Square(r) && |r| == k + 1
    ensures forall a, b :: 0 <= a <= k && 0 <= b <= k ==> r[a][b] == m[if a < k then a else i][if b < k then b else j]
  {
    seq(k + 1, a requires 0 <= a < k + 1 => m[if a < k then a else i][..k] + [m[if a < k then a else i][j]])
  }

  lemma SameMatrix(x: IntMatrix, y: IntMatrix)
    requires Square(x) && Square(y) && |x| == |y|
    requires forall a, b :: 0 <= a < |x| && 0 <= b < |x| ==> x[a][b] == y[a][b]
    ensures x == y
  {
    forall a | 0 <= a < |x| ensures x[a] == y[a] { }
  }

  lemma ClearedLead(m: IntMatrix, k: nat)
    requires Square(m) && 0 < k <= |m|
    ensures Cleared(Lead(m, k)) == Lead(Cleared(m), k - 1)
  {
    SameMatrix(Cleared(Lead(m, k)), Lead(Cleared(m), k - 1));
  }

  lemma ClearedBorder(m: IntMatrix, k: nat, i: nat, j: nat)
    requires Square(m) && 0 < k <= i < |m| && k <= j < |m|
    ensures Cleared(Border(m, k, i, j)) == Border(Cleared(m), k - 1, i - 1, j - 1)
  {
    SameMatrix(Cleared(Border(m, k, i, j)), Border(Cleared(m), k - 1, i - 1, j - 1));
  }

  ghost predicate LeadingNonZero(m: IntMatrix, k: nat)
    requires Square(m) && k <= |m|
  {
    forall i :: 1 <= i <= k ==> Det(Lead(m, i)) != 0
  }

  lemma PivotNonZero(m: IntMatrix, k: nat)
    requires Square(m) && 0 < k <= |m| && LeadingNonZero(m, k)
    ensures m[0][0] != 0
  {
    hide Det;
    assert Det(Lead(m, 1)) != 0;
    SizeOne(Lead(m, 1));
  }

  lemma SizeOne(m: IntMatrix)
    requires Square(m) && |m| == 1
    ensures Det(m) == m[0][0]
  {
    FirstColumn(m);
    assert |Minor(m, 0)| == 0;
    assert Det(Minor(m, 0)) == 1;
  }

  lemma ClearedStaysLeading(m: IntMatrix, k: nat)
    requires Square(m) && 0 < k <= |m| && LeadingNonZero(m, k)
    ensures LeadingNonZero(Cleared(m), k - 1)
  {
    hide Det, Pow;
    PivotNonZero(m, k);
    forall i | 1 <= i <= k - 1 ensures Det(Lead(Cleared(m), i)) != 0 {
      ClearOnce(Lead(m, i + 1));
      ClearedLead(m, i + 1);
      assert Det(Lead(m, i + 1)) != 0;
      PowNonZero(m[0][0], i);
      ProductNonZero(Det(Lead(m, i + 1)), Pow(m[0][0], i));
    }
  }

  lemma ProductNonZero(x: int, y: int)
    requires x != 0 && y != 0
    ensures x * y != 0
  {
  }

  // ----- The identity behind exact division -----

  /** Sylvester's identity: the leading minor divides the cross product of the four bordered minors, and the quotient
      is the next minor. */
  lemma {:induction false} Sylvester(c: IntMatrix, k: nat)
    requires Square(c) && |c| == k + 2 && LeadingNonZero(c, k)
    ensures Det(Lead(c, k)) * Det(c) ==
      Det(Border(c, k, k, k)) * Det(Border(c, k, k + 1, k + 1)) -
      Det(Border(c, k, k, k + 1)) * Det(Border(c, k, k + 1, k))
    decreases k
  {
    hide Det, Pow;
    if k == 0 {
      SizeTwo(c);
      EmptyMatrix(Lead(c, 0));
      SizeOne(Border(c, 0, 0, 0));
      SizeOne(Border(c, 0, 1, 1));
      SizeOne(Border(c, 0, 0, 1));
      SizeOne(Border(c, 0, 1, 0));
    } else {
      var n, p := Cleared(c), c[0][0];
      PivotNonZero(c, k);
      ClearedStaysLeading(c, k);
      Sylvester(n, k - 1);
      ClearOnce(c);
      ClearOnce(Lead(c, k));
      ClearedLead(c, k);
      ClearBorder(c, k, k, k);
      ClearBorder(c, k, k + 1, k + 1);
      ClearBorder(c, k, k, k + 1);
      ClearBorder(c, k, k + 1, k);
      PowNonZero(p, k - 1);
      assert Pow(p, k) == p * Pow(p, k - 1) && Pow(p, k + 1) == p * (p * Pow(p, k - 1)) by { PowTwice(p, k); }
      CancelPowers(p, Pow(p, k - 1), Det(Lead(c, k)), Det(c),
        Det(Border(c, k, k, k)), Det(Border(c, k, k + 1, k + 1)), Det(Border(c, k, k, k + 1)),
        Det(Border(c, k, k + 1, k)),
        Det(Lead(n, k - 1)), Det(n),
        Det(Border(n, k - 1, k - 1, k - 1)), Det(Border(n, k - 1, k, k)), Det(Border(n, k - 1, k - 1, k)),
          Det(Border(n, k - 1, k, k - 1)));
    }
  }

  lemma PowTwice(p: int, k: nat)
    requires k > 0
    ensures Pow(p, k) == p * Pow(p, k - 1) && Pow(p, k + 1) == p * (p * Pow(p, k - 1))
  {
  }

  lemma ClearBorder(m: IntMatrix, k: nat, i: nat, j: nat)
    requires Square(m) && 0 < k <= i < |m| && k <= j < |m|
    ensures Det(Border(m, k, i, j)) * Pow(m[0][0], k) == m[0][0] * Det(Border(Cleared(m), k - 1, i - 1, j - 1))
  {
    hide Det, Pow;
    ClearOnce(Border(m, k, i, j));
    ClearedBorder(m, k, i, j);
  }

  /** Each minor of `c` is, up to powers of the pivot, a minor of the cleared matrix; the powers cancel. */
  lemma CancelPowers(p: int, q: int, l: int, d: int, b1: int, b4: int, b2: int, b3: int,
                     ln: int, dn: int, n1: int, n4: int, n2: int, n3: int)
    requires p != 0 && q != 0
    requires l * q == p * ln && d * (p * (p * q)) == p * dn
    requires b1 * (p * q) == p * n1 && b4 * (p * q) == p * n4 && b2 * (p * q) == p * n2 && b3 * (p * q) == p * n3
    requires ln * dn == n1 * n4 - n2 * n3
    ensures l * d == b1 * b4 - b2 * b3
  {
    CancelFactor(p, d * (p * q), dn);
    CancelFactor(p, b1 * q, n1);
    CancelFactor(p, b4 * q, n4);
    CancelFactor(p, b2 * q, n2);
    CancelFactor(p, b3 * q, n3);
    assert (l * q) * (d * (p * q)) == p * ((n1 * n4) - (n2 * n3)) by { assert (p * ln) * dn == p * (ln * dn); }
    assert n1 * n4 == (b1 * b4) * (q * q) by { assert (b1 * q) * (b4 * q) == (b1 * b4) * (q * q); }
    assert n2 * n3 == (b2 * b3) * (q * q) by { assert (b2 * q) * (b3 * q) == (b2 * b3) * (q * q); }
    Rearrange(p, q, l, d, b1 * b4, b2 * b3);
    CancelFactor(p * (q * q), l * d, b1 * b4 - b2 * b3);
  }

  lemma Rearrange(p: int, q: int, l: int, d: int, x: int, y: int)
    requires (l * q) * (d * (p * q)) == p * (x * (q * q) - y * (q * q))
    requires p != 0 && q != 0
    ensures (p * (q * q)) * (l * d) == (p * (q * q)) * (x - y) && p * (q * q) != 0
  {
    assert (l * q) * (d * (p * q)) == (p * (q * q)) * (l * d);
    assert p * (x * (q * q) - y * (q * q)) == (p * (q * q)) * (x - y);
    ProductNonZero(q, q);
    ProductNonZero(p, q * q);
  }

  lemma CancelFactor(f: int, x: int, y: int)
    requires f != 0 && f * x == f * y
    ensures x == y
  {
  }

  lemma EmptyMatrix(m: IntMatrix)
    requires Square(m) && |m| == 0
    ensures Det(m) == 1
  {
  }

  lemma SizeTwo(m: IntMatrix)
    requires Square(m) && |m| == 2
    ensures Det(m) == m[0][0] * m[1][1] - m[0][1] * m[1][0]
  {
    hide Det;
    assert Det(m) == Term(m, 0) + Term(m, 1) by { TwoTerms(m); }
    SizeOne(Minor(m, 0));
    SizeOne(Minor(m, 1));
  }

  lemma TwoTerms(m: IntMatrix)
    requires Square(m) && |m| == 2
    ensures Det(m) == Term(m, 0) + Term(m, 1)
  {
    hide Term;
    assert Expansion(m, 1) == Term(m, 0);
  }

  /** When a column has no pivot left, the determinant is zero. */
  lemma {:induction false} NoPivot(c: IntMatrix, k: nat)
    requires Square(c) && k < |c| && LeadingNonZero(c, k)
    requires forall i :: k <= i < |c| ==> Det(Border(c, k, i, k)) == 0
    ensures Det(c) == 0
    decreases k
  {
    hide Det, Pow;
    if k == 0 {
      forall i | 0 <= i < |c| ensures c[i][0] == 0 {
        assert Det(Border(c, 0, i, 0)) == 0;
        SizeOne(Border(c, 0, i, 0));
      }
      FirstColumn(c);
    } else {
      var n, p := Cleared(c), c[0][0];
      PivotNonZero(c, k);
      ClearedStaysLeading(c, k);
      forall i {:trigger Border(n, k - 1, i, k - 1)} | k - 1 <= i < |n| ensures Det(Border(n, k - 1, i, k - 1)) == 0 {
        ClearBorder(c, k, i + 1, k);
        assert Det(Border(c, k, i + 1, k)) == 0;
        CancelFactor(p, Det(Border(n, k - 1, i, k - 1)), 0);
      }
      NoPivot(n, k - 1);
      ClearOnce(c);
      PowNonZero(p, |c| - 1);
      CancelFactor(Pow(p, |c| - 1), Det(c), 0);
    }
  }

  // ----- The elimination loop -----

  /** What the table `m` holds after `k` steps on the row-exchanged input `b`: bordered minors of `b`. */
  ghost predicate HoldsMinors(m: IntMatrix, b: IntMatrix, k: nat, n: nat)
    requires Square(m) && Square(b) && |m| == |b| == n && k <= n
  {
    forall i, j :: k <= i < n && k <= j < n ==> m[i][j] == Det(Border(b, k, i, j))
  }

  /** exactDivide, where the division comes out even. */
  function ExactDivide(x: int, y: int): (q: int)
    requires y != 0 && x % y == 0
    ensures q * y == x
  {
    x / y
  }

  /** Sylvester's identity within a larger matrix: the cross product of four bordered minors is the leading minor times
      the next bordered minor. */
  lemma CrossMinor(b: IntMatrix, k: nat, i: nat, j: nat)
    requires Square(b) && k < i < |b| && k < j < |b| && LeadingNonZero(b, k)
    ensures Det(Border(b, k, i, j)) * Det(Border(b, k, k, k)) - Det(Border(b, k, i, k)) * Det(Border(b, k, k, j))
      == Det(Lead(b, k)) * Det(Border(b, k + 1, i, j))
  {
    hide Det;
    var c := Border(b, k + 1, i, j);
    SameMatrix(Lead(c, k), Lead(b, k));
    forall l | 1 <= l <= k ensures Det(Lead(c, l)) != 0 {
      SameMatrix(Lead(c, l), Lead(b, l));
      assert Det(Lead(b, l)) != 0;
    }
    Sylvester(c, k);
    SameMatrix(Border(c, k, k, k), Border(b, k, k, k));
    SameMatrix(Border(c, k, k + 1, k + 1), Border(b, k, i, j));
    SameMatrix(Border(c, k, k, k + 1), Border(b, k, k, j));
    SameMatrix(Border(c, k, k + 1, k), Border(b, k, i, k));
  }

  /** One step's entry is the next minor, so the division by the previous pivot is exact. */
  lemma StepEntry(m: IntMatrix, b: IntMatrix, k: nat, n: nat, i: nat, j: nat)
    requires Square(m) && Square(b) && |m| == |b| == n && k < i < n && k < j < n
    requires HoldsMinors(m, b, k, n) && LeadingNonZero(b, k)
    ensures m[i][j] * m[k][k] - m[i][k] * m[k][j] == Det(Lead(b, k)) * Det(Border(b, k + 1, i, j))
  {
    hide Det, Border, Lead, LeadingNonZero;
    CrossMinor(b, k, i, j);
  }

  lemma Divisible(p: int, x: int)
    requires p != 0
    ensures (p * x) % p == 0 && (p * x) / p == x
  {
    var q, r := (p * x) / p, (p * x) % p;
    assert p * x == p * q + r;
    SmallMultiple(p, x - q, r);
  }

  lemma SmallMultiple(p: int, d: int, r: int)
    requires p * d == r && 0 <= r < if p < 0 then -p else p
    ensures d == 0 && r == 0
  {
    if d >= 1 && p > 0 {
      AtLeast(p, d);
    } else if d <= -1 && p < 0 {
      AtLeast(-p, -d);
    } else if d <= -1 && p > 0 {
      AtLeast(p, -d);
    } else if d >= 1 {
      AtLeast(-p, d);
    }
  }

  lemma AtLeast(p: int, d: int)
    requires p > 0 && d >= 1
    ensures p * d >= p
  {
  }

  /** The inner loops of one step. */
  method Step(m0: IntMatrix, n: nat, k: nat, prev: int, ghost b: IntMatrix) returns (m: IntMatrix)
    requires Square(m0) && Square(b) && |m0| == |b| == n && k < n - 1
    requires HoldsMinors(m0, b, k, n) && LeadingNonZero(b, k) && prev == Det(Lead(b, k)) && prev != 0
    ensures Square(m) && |m| == n && HoldsMinors(m, b, k + 1, n)
  {
    hide Det, LeadingNonZero, Lead, Border;
    m := m0;
    var pivot := m[k][k];
    for i := k + 1 to n
      invariant Square(m) && |m| == n
      invariant forall r :: 0 <= r < n && !(k < r < i) ==> m[r] == m0[r]
      invariant forall r, c :: k < r < i && k < c < n ==> m[r][c] == Det(Border(b, k + 1, r, c))
    {
      for j := k + 1 to n
        invariant Square(m) && |m| == n
        invariant forall r :: 0 <= r < n && !(k < r <= i) ==> m[r] == m0[r]
        invariant forall r, c :: k < r < i && k < c < n ==> m[r][c] == Det(Border(b, k + 1, r, c))
        invariant forall c :: 0 <= c < n && !(k < c < j) ==> m[i][c] == m0[i][c]
        invariant forall c :: k < c < j ==> m[i][c] == Det(Border(b, k + 1, i, c))
      {
        var diff := m[i][j] * pivot - m[i][k] * m[k][j];
        StepEntry(m0, b, k, n, i, j);
        Divisible(prev, Det(Border(b, k + 1, i, j)));
        m := m[i := m[i][j := ExactDivide(diff, prev)]];
      }
    }
  }

  /** Exchanging two rows that are not yet used exchanges the rows of the table and of the input alike. */
  lemma SwapKeepsMinors(m: IntMatrix, b: IntMatrix, k: nat, n: nat, r: nat)
    requires Square(m) && Square(b) && |m| == |b| == n && k <= r < n && HoldsMinors(m, b, k, n) && LeadingNonZero(b, k)
    ensures Square(Swap(m, k, r)) && Square(Swap(b, k, r))
    ensures HoldsMinors(Swap(m, k, r), Swap(b, k, r), k, n) && LeadingNonZero(Swap(b, k, r), k)
    ensures Lead(Swap(b, k, r), k) == Lead(b, k)
  {
    hide Det;
    var ms, bs := Swap(m, k, r), Swap(b, k, r);
    forall i, j | k <= i < n && k <= j < n ensures ms[i][j] == Det(Border(bs, k, i, j)) {
      var i' := if i == k then r else if i == r then k else i;
      SameMatrix(Border(bs, k, i, j), Border(b, k, i', j));
    }
    forall l | 1 <= l <= k ensures Det(Lead(bs, l)) != 0 {
      SameMatrix(Lead(bs, l), Lead(b, l));
    }
    SameMatrix(Lead(bs, k), Lead(b, k));
  }

  lemma PivotIsLead(b: IntMatrix, k: nat)
    requires Square(b) && k < |b|
    ensures Border(b, k, k, k) == Lead(b, k + 1)
  {
    SameMatrix(Border(b, k, k, k), Lead(b, k + 1));
  }

  lemma LeadingGrows(b: IntMatrix, k: nat)
    requires Square(b) && k < |b| && LeadingNonZero(b, k) && Det(Lead(b, k + 1)) != 0
    ensures LeadingNonZero(b, k + 1)
  {
  }

  method Compute(a: IntMatrix) returns (d: int)
    requires Square(a)
    ensures d == Det(a)
  {
    hide Det, LeadingNonZero, HoldsMinors, Lead, Border, Swap;
    var n := |a|;
    if n == 0 {
      EmptyMatrix(a);
      return 1;
    }
    if n == 1 {
      SizeOne(a);
      return a[0][0];
    }
    if n == 2 {
      SizeTwo(a);
      return a[0][0] * a[1][1] - a[0][1] * a[1][0];
    }
    var m, prev, sign := a, 1, 1;
    ghost var b := a;
    StartsWithEntries(a);
    for k := 0 to n - 1
      invariant Square(m) && Square(b) && |m| == |b| == n
      invariant HoldsMinors(m, b, k, n) && LeadingNonZero(b, k) && prev == Det(Lead(b, k)) && prev != 0
      invariant (sign == 1 || sign == -1) && sign * Det(b) == Det(a)
    {
      var row := k;
      while row < n && m[row][k] == 0
        invariant k <= row <= n && forall i :: k <= i < row ==> m[i][k] == 0
      {
        row := row + 1;
      }
      if row == n {
        ColumnDead(m, b, k, n);
        return 0;
      }
      if row != k {
        SwapKeepsMinors(m, b, k, n, row);
        SwapRows(b, k, row);
        PivotMoves(m, k, row);
        m, b, sign := Swap(m, k, row), Swap(b, k, row), -sign;
      }
      var pivot := m[k][k];
      PivotMinor(m, b, k, n);
      LeadingGrows(b, k);
      m := Step(m, n, k, prev, b);
      prev := pivot;
    }
    LastMinor(m, b, n);
    d := if sign == -1 then -m[n - 1][n - 1] else m[n - 1][n - 1];
  }

  lemma StartsWithEntries(a: IntMatrix)
    requires Square(a) && |a| > 0
    ensures HoldsMinors(a, a, 0, |a|) && LeadingNonZero(a, 0) && Det(Lead(a, 0)) == 1
  {
    hide Det;
    EmptyMatrix(Lead(a, 0));
    forall i, j | 0 <= i < |a| && 0 <= j < |a| ensures a[i][j] == Det(Border(a, 0, i, j)) {
      SizeOne(Border(a, 0, i, j));
    }
  }

  lemma ColumnDead(m: IntMatrix, b: IntMatrix, k: nat, n: nat)
    requires Square(m) && Square(b) && |m| == |b| == n && k < n && HoldsMinors(m, b, k, n) && LeadingNonZero(b, k)
    requires forall i :: k <= i < n ==> m[i][k] == 0
    ensures Det(b) == 0
  {
    hide Det;
    forall i | k <= i < n ensures Det(Border(b, k, i, k)) == 0 { assert m[i][k] == 0; }
    NoPivot(b, k);
  }

  lemma PivotMoves(m: IntMatrix, k: nat, row: nat)
    requires Square(m) && k < |m| && row < |m|
    ensures Square(Swap(m, k, row)) && Swap(m, k, row)[k] == m[row]
  {
  }

  lemma PivotMinor(m: IntMatrix, b: IntMatrix, k: nat, n: nat)
    requires Square(m) && Square(b) && |m| == |b| == n && k < n && HoldsMinors(m, b, k, n)
    ensures m[k][k] == Det(Lead(b, k + 1))
  {
    hide Det;
    PivotIsLead(b, k);
  }

  lemma LastMinor(m: IntMatrix, b: IntMatrix, n: nat)
    requires Square(m) && Square(b) && |m| == |b| == n && n > 0 && HoldsMinors(m, b, n - 1, n)
    ensures m[n - 1][n - 1] == Det(b)
  {
    hide Det, Border;
    WholeBorder(b, n);
  }

  lemma WholeBorder(b: IntMatrix, n: nat)
    requires Square(b) && |b| == n && n > 0
    ensures Border(b, n - 1, n - 1, n - 1) == b
  {
    hide Border;
    SameMatrix(Border(b, n - 1, n - 1, n - 1), b);
  }
}
