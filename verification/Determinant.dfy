/** Determinants of integer matrices by expansion along the first column, and the row laws. */
module Determinant {

  type Row = seq<int>
  type IntMatrix = seq<Row>

  ghost predicate Square(m: IntMatrix) {
    forall i :: 0 <= i < |m| ==> |m[i]| == |m|
  }

  function Sign(i: nat): int {
    if i % 2 == 0 then 1 else -1
  }

  /** Without row `i` and the first column. */
  function Minor(m: IntMatrix, i: nat): (r: IntMatrix)
    requires i < |m| && Square(m)
    ensures Square(r) && |r| == |m| - 1
    ensures forall a, b :: 0 <= a < |r| && 0 <= b < |r| ==> r[a][b] == m[if a < i then a else a + 1][b + 1]
  {
    seq(|m| - 1, a requires 0 <= a < |m| - 1 => m[if a < i then a else a + 1][1..])
  }

  function Det(m: IntMatrix): int
    requires Square(m)
    decreases |m|, |m| + 1
  {
    if |m| == 0 then 1 else Expansion(m, |m|)
  }

  /** The first `k` terms of the expansion. */
  function Expansion(m: IntMatrix, k: nat): int
    requires Square(m) && k <= |m|
    decreases |m|, k
  {
    if k == 0 then 0 else Expansion(m, k - 1) + Term(m, k - 1)
  }

  function Term(m: IntMatrix, i: nat): int
    requires Square(m) && i < |m|
    decreases |m|, 0
  {
    Sign(i) * m[i][0] * Det(Minor(m, i))
  }

  // ----- Linearity in one row -----

  ghost predicate Combines(w: Row, u: Row, v: Row, s: int, t: int) {
    |w| == |u| == |v| && forall j :: 0 <= j < |w| ==> w[j] == s * u[j] + t * v[j]
  }

  lemma MinorOfUpdate(m: IntMatrix, r: nat, u: Row, i: nat)
    requires Square(m) && r < |m| && i < |m| && |u| == |m|
    ensures Square(m[r := u])
    ensures i == r ==> Minor(m[r := u], i) == Minor(m, i)
    ensures i != r ==> Minor(m[r := u], i) == Minor(m, i)[(if r < i then r else r - 1) := u[1..]]
  {
  }

  lemma {:induction false} DetLinear(m: IntMatrix, r: nat, w: Row, u: Row, v: Row, s: int, t: int)
    requires Square(m) && r < |m| && |w| == |m| && Combines(w, u, v, s, t)
    ensures Square(m[r := w]) && Square(m[r := u]) && Square(m[r := v])
    ensures Det(m[r := w]) == s * Det(m[r := u]) + t * Det(m[r := v])
    decreases |m|, |m| + 1
  {
    ExpansionLinear(m, r, w, u, v, s, t, |m|);
  }

  lemma {:induction false} ExpansionLinear(m: IntMatrix, r: nat, w: Row, u: Row, v: Row, s: int, t: int, k: nat)
    requires Square(m) && r < |m| && |w| == |m| && Combines(w, u, v, s, t) && k <= |m|
    ensures Square(m[r := w]) && Square(m[r := u]) && Square(m[r := v])
    ensures Expansion(m[r := w], k) == s * Expansion(m[r := u], k) + t * Expansion(m[r := v], k)
    decreases |m|, k
  {
    hide Det, Term;
    if k > 0 {
      ExpansionLinear(m, r, w, u, v, s, t, k - 1);
      TermIsLinear(m, r, w, u, v, s, t, k - 1);
    }
  }

  lemma TermIsLinear(m: IntMatrix, r: nat, w: Row, u: Row, v: Row, s: int, t: int, i: nat)
    requires Square(m) && r < |m| && |w| == |m| && Combines(w, u, v, s, t) && i < |m|
    ensures Square(m[r := w]) && Square(m[r := u]) && Square(m[r := v])
    ensures Term(m[r := w], i) == s * Term(m[r := u], i) + t * Term(m[r := v], i)
    decreases |m|, 0
  {
    hide Det;
    MinorOfUpdate(m, r, w, i);
    MinorOfUpdate(m, r, u, i);
    MinorOfUpdate(m, r, v, i);
    if i == r {
      TermLinear(Sign(i), s, u[0], t, v[0], Det(Minor(m, i)));
    } else {
      DetLinear(Minor(m, i), if r < i then r else r - 1, w[1..], u[1..], v[1..], s, t);
      TermScales(Sign(i) * m[i][0], s, Det(Minor(m[r := u], i)), t, Det(Minor(m[r := v], i)));
    }
  }

  lemma TermLinear(sign: int, s: int, x: int, t: int, y: int, d: int)
    ensures sign * (s * x + t * y) * d == s * (sign * x * d) + t * (sign * y * d)
  {
  }

  lemma TermScales(c: int, s: int, x: int, t: int, y: int)
    ensures c * (s * x + t * y) == s * (c * x) + t * (c * y)
  {
  }

  // ----- Exchanging rows -----

  function Swap(m: IntMatrix, a: nat, b: nat): (r: IntMatrix)
    requires a < |m| && b < |m|
    ensures |r| == |m|
  {
    m[a := m[b]][b := m[a]]
  }

  lemma MinorOfSwap(m: IntMatrix, r: nat, i: nat)
    requires Square(m) && r + 1 < |m| && i < |m|
    ensures Square(Swap(m, r, r + 1))
    ensures i == r ==> Minor(Swap(m, r, r + 1), i) == Minor(m, r + 1)
    ensures i == r + 1 ==> Minor(Swap(m, r, r + 1), i) == Minor(m, r)
    ensures i < r ==> Minor(Swap(m, r, r + 1), i) == Swap(Minor(m, i), r - 1, r)
    ensures i > r + 1 ==> Minor(Swap(m, r, r + 1), i) == Swap(Minor(m, i), r, r + 1)
  {
  }

  /** Exchanging two neighbouring rows changes the sign. */
  lemma {:induction false} AdjacentSwap(m: IntMatrix, r: nat)
    requires Square(m) && r + 1 < |m|
    ensures Square(Swap(m, r, r + 1)) && Det(Swap(m, r, r + 1)) == -Det(m)
    decreases |m|, |m| + 1
  {
    MinorOfSwap(m, r, 0);
    ExpansionSwap(m, r, |m|);
  }

  lemma {:induction false} ExpansionSwap(m: IntMatrix, r: nat, k: nat)
    requires Square(m) && r + 1 < |m| && k <= |m|
    ensures Square(Swap(m, r, r + 1))
    ensures k != r + 1 ==> Expansion(Swap(m, r, r + 1), k) == -Expansion(m, k)
    ensures k == r + 1 ==> Expansion(Swap(m, r, r + 1), k) == -Expansion(m, r) - Term(m, r + 1)
    decreases |m|, k
  {
    hide Det, Term;
    if k > 0 {
      ExpansionSwap(m, r, k - 1);
      TermSwaps(m, r, k - 1);
    }
  }

  lemma TermSwaps(m: IntMatrix, r: nat, i: nat)
    requires Square(m) && r + 1 < |m| && i < |m|
    ensures Square(Swap(m, r, r + 1))
    ensures Term(Swap(m, r, r + 1), i) == -Term(m, if i == r then r + 1 else if i == r + 1 then r else i)
    decreases |m|, 0
  {
    hide Det;
    MinorOfSwap(m, r, i);
    if i < r {
      AdjacentSwap(Minor(m, i), r - 1);
      TermNegates(Sign(i) * m[i][0], Det(Minor(m, i)));
    } else if i > r + 1 {
      AdjacentSwap(Minor(m, i), r);
      TermNegates(Sign(i) * m[i][0], Det(Minor(m, i)));
    } else {
      assert Sign(r + 1) == -Sign(r);
      SignNegates(Sign(r), m[r][0], Det(Minor(m, r)));
      SignNegates(Sign(r), m[r + 1][0], Det(Minor(m, r + 1)));
    }
  }

  lemma TermNegates(c: int, x: int)
    ensures c * -x == -(c * x)
  {
  }

  lemma SignNegates(sign: int, x: int, d: int)
    ensures -sign * x * d == -(sign * x * d)
  {
  }

  /** Two equal rows make the determinant vanish. */
  lemma {:induction false} EqualRows(m: IntMatrix, a: nat, b: nat)
    requires Square(m) && a < b < |m| && m[a] == m[b]
    ensures Det(m) == 0
    decreases b - a
  {
    if b == a + 1 {
      AdjacentSwap(m, a);
      assert Swap(m, a, b) == m;
    } else {
      AdjacentSwap(m, b - 1);
      EqualRows(Swap(m, b - 1, b), a, b - 1);
    }
  }

  /** With the sum of both rows in row `a`, putting the one or the other row in row `b` gives opposite determinants. */
  lemma SumInRow(m: IntMatrix, a: nat, b: nat, w: Row, u: Row, v: Row)
    requires Square(m) && a < b < |m| && |w| == |m| && Combines(w, u, v, 1, 1)
    ensures Square(m[a := w][b := w]) && Square(m[a := u][b := v]) && Square(m[a := v][b := u])
    ensures Det(m[a := w][b := w]) == Det(m[a := u][b := v]) + Det(m[a := v][b := u])
  {
    hide Det;
    DetLinear(m[b := w], a, w, u, v, 1, 1);
    DetLinear(m[a := u], b, w, u, v, 1, 1);
    DetLinear(m[a := v], b, w, u, v, 1, 1);
    assert m[b := w][a := w] == m[a := w][b := w];
    assert m[b := w][a := u] == m[a := u][b := w] && m[b := w][a := v] == m[a := v][b := w];
    EqualRows(m[a := u][b := u], a, b);
    EqualRows(m[a := v][b := v], a, b);
  }

  /** Exchanging any two rows changes the sign. */
  lemma SwapRows(m: IntMatrix, a: nat, b: nat)
    requires Square(m) && a < b < |m|
    ensures Square(Swap(m, a, b)) && Det(Swap(m, a, b)) == -Det(m)
  {
    hide Det;
    var u, v := m[a], m[b];
    var w := seq(|m|, j requires 0 <= j < |m| => u[j] + v[j]);
    SumInRow(m, a, b, w, u, v);
    EqualRows(m[a := w][b := w], a, b);
    assert m[a := u][b := v] == m;
    assert m[a := v][b := u] == Swap(m, a, b);
  }

  /** Only the top entry of the first column counts when the rest of it is zero. */
  lemma FirstColumn(m: IntMatrix)
    requires Square(m) && |m| > 0 && forall i :: 1 <= i < |m| ==> m[i][0] == 0
    ensures Det(m) == m[0][0] * Det(Minor(m, 0))
  {
    OneTerm(m, |m|);
  }

  lemma {:induction false} OneTerm(m: IntMatrix, k: nat)
    requires Square(m) && 0 < k <= |m| && forall i :: 1 <= i < |m| ==> m[i][0] == 0
    ensures Expansion(m, k) == m[0][0] * Det(Minor(m, 0))
  {
    hide Det;
    if k > 1 {
      OneTerm(m, k - 1);
    }
  }
}
