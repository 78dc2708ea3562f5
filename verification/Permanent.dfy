/** SymMatrix::permanent: Ryser's signed subset loop (src/cas/SymMatrix.cpp:670-703). */
module Permanent {

  type Grid = seq<seq<int>>

  ghost predicate IsGrid(a: Grid, n: nat) {
    |a| == n && forall i :: 0 <= i < n ==> |a[i]| == n
  }

  // ----- Finite sums -----

  ghost function Sum(n: nat, f: nat -> int): int {
    if n == 0 then 0 else Sum(n - 1, f) + f(n - 1)
  }

  /** Sum of `f` over all extensions of `pre` by `k` column numbers below `n`. */
  ghost function SumChoices(n: nat, k: nat, pre: seq<nat>, f: seq<nat> -> int): int
    decreases k
  {
    if k == 0 then f(pre) else Sum(n, (j: nat) => SumChoices(n, k - 1, pre + [j], f))
  }

  /** Sum of `f` over all subsets of the columns below `k`, the higher columns being decided by `high`. */
  ghost function SumSubsets(k: nat, high: seq<bool>, f: seq<bool> -> int): int
    decreases k
  {
    if k == 0 then f(high) else SumSubsets(k - 1, [false] + high, f) + SumSubsets(k - 1, [true] + high, f)
  }

  lemma {:induction false} SumEqual(n: nat, f: nat -> int, g: nat -> int)
    requires forall j: nat :: j < n ==> f(j) == g(j)
    ensures Sum(n, f) == Sum(n, g)
  {
    if n > 0 {
      SumEqual(n - 1, f, g);
    }
  }

  lemma {:induction false} SumAdds(n: nat, f: nat -> int, g: nat -> int, h: nat -> int)
    requires forall j: nat :: j < n ==> h(j) == f(j) + g(j)
    ensures Sum(n, h) == Sum(n, f) + Sum(n, g)
  {
    if n > 0 {
      SumAdds(n - 1, f, g, h);
    }
  }

  lemma {:induction false} SumScales(n: nat, c: int, f: nat -> int, g: nat -> int)
    requires forall j: nat :: j < n ==> g(j) == c * f(j)
    ensures Sum(n, g) == c * Sum(n, f)
  {
    if n > 0 {
      SumScales(n - 1, c, f, g);
    }
  }

  // ----- The permanent -----

  /** The product of the entries that `f` chooses in the first rows. */
  ghost function Weight(a: Grid, f: seq<nat>): int
    requires |f| <= |a| && forall r :: 0 <= r < |f| ==> f[r] < |a[r]|
  {
    if f == [] then 1 else Weight(a, f[..|f| - 1]) * a[|f| - 1][f[|f| - 1]]
  }

  ghost predicate Choice(a: Grid, n: nat, f: seq<nat>) {
    IsGrid(a, n) && |f| <= n && forall r :: 0 <= r < |f| ==> f[r] < n
  }

  ghost predicate Distinct(f: seq<nat>) {
    forall i, j :: 0 <= i < j < |f| ==> f[i] != f[j]
  }

  /** What the choice `f` of one column per row contributes: its product if `keep` holds of it. */
  ghost function Contribution(a: Grid, n: nat, keep: seq<nat> -> bool, f: seq<nat>): int {
    if Choice(a, n, f) && keep(f) then Weight(a, f) else 0
  }

  /** The sum over all permutations (choices of pairwise different columns) of the products of the chosen entries. */
  ghost function Perm(a: Grid, n: nat): int {
    SumChoices(n, n, [], f => Contribution(a, n, Distinct, f))
  }

  // ----- One subset -----

  ghost function RowSum(row: seq<int>, b: seq<bool>, k: nat): int
    requires k <= |row| && k <= |b|
  {
    if k == 0 then 0 else RowSum(row, b, k - 1) + (if b[k - 1] then row[k - 1] else 0)
  }

  /** The product of the row sums over the subset `b`, for the rows from `r` on. */
  ghost function RowProduct(a: Grid, n: nat, b: seq<bool>, r: nat): int
    requires IsGrid(a, n) && |b| == n && r <= n
    decreases n - r
  {
    if r == n then 1 else RowSum(a[r], b, n) * RowProduct(a, n, b, r + 1)
  }

  /** All columns of `f` lie in the subset. */
  ghost predicate Inside(f: seq<nat>, b: seq<bool>) {
    forall r :: 0 <= r < |f| ==> f[r] < |b| && b[f[r]]
  }

  /** -1 to the number of columns outside the subset. */
  ghost function SignOf(b: seq<bool>): int {
    if b == [] then 1 else (if b[0] then 1 else -1) * SignOf(b[1..])
  }

  lemma {:induction false} RowSumIsSum(row: seq<int>, b: seq<bool>, k: nat, f: nat -> int)
    requires k <= |row| && k <= |b| && forall j: nat :: j < k ==> f(j) == if b[j] then row[j] else 0
    ensures RowSum(row, b, k) == Sum(k, f)
  {
    if k > 0 {
      RowSumIsSum(row, b, k - 1, f);
    }
  }

  lemma WeightGrows(a: Grid, n: nat, f: seq<nat>, j: nat)
    requires Choice(a, n, f) && |f| < n && j < n
    ensures Choice(a, n, f + [j]) && Weight(a, f + [j]) == Weight(a, f) * a[|f|][j]
  {
    assert (f + [j])[..|f|] == f;
  }

  /** The contributions of the choices inside the subset `b`. */
  ghost function Within(a: Grid, n: nat, b: seq<bool>): seq<nat> -> int {
    f => Contribution(a, n, g => Inside(g, b), f)
  }

  ghost function WeightInside(a: Grid, n: nat, b: seq<bool>, pre: seq<nat>): int {
    if Choice(a, n, pre) && Inside(pre, b) then Weight(a, pre) else 0
  }

  /** Multiplying out the row sums gives the sum over all choices inside the subset. */
  lemma {:induction false} Expand(a: Grid, n: nat, b: seq<bool>, pre: seq<nat>)
    requires Choice(a, n, pre) && |b| == n && |pre| <= n
    ensures SumChoices(n, n - |pre|, pre, Within(a, n, b)) == WeightInside(a, n, b, pre) * RowProduct(a, n, b, |pre|)
    decreases n - |pre|, 1
  {
    hide Weight, RowSum, Choice, Inside, WeightInside;
    var k := n - |pre|;
    if k == 0 {
      assert Within(a, n, b)(pre) == WeightInside(a, n, b, pre) by { WithinAt(a, n, b, pre); }
    } else {
      var row := RowAt(a, n, pre);
      var c := WeightInside(a, n, b, pre) * RowProduct(a, n, b, |pre| + 1);
      var entry := (j: nat) => if j < n && b[j] then row[j] else 0;
      var term := (j: nat) => SumChoices(n, k - 1, pre + [j], Within(a, n, b));
      forall j: nat | j < n ensures term(j) == c * entry(j) {
        ExpandTerm(a, n, b, pre, j);
      }
      SumScales(n, c, entry, term);
      RowSumIsSum(row, b, n, entry);
      Reorder(WeightInside(a, n, b, pre), RowProduct(a, n, b, |pre| + 1), RowSum(row, b, n));
    }
  }

  lemma WithinAt(a: Grid, n: nat, b: seq<bool>, f: seq<nat>)
    ensures Within(a, n, b)(f) == WeightInside(a, n, b, f)
  {
  }

  ghost function RowAt(a: Grid, n: nat, pre: seq<nat>): (row: seq<int>)
    requires Choice(a, n, pre) && |pre| < n
    ensures |row| == n && row == a[|pre|] && IsGrid(a, n)
  {
    a[|pre|]
  }

  lemma ExpandTerm(a: Grid, n: nat, b: seq<bool>, pre: seq<nat>, j: nat)
    requires Choice(a, n, pre) && |b| == n && |pre| < n && j < n
    ensures IsGrid(a, n) && SumChoices(n, n - |pre| - 1, pre + [j], Within(a, n, b)) ==
      WeightInside(a, n, b, pre) * RowProduct(a, n, b, |pre| + 1) * (if b[j] then a[|pre|][j] else 0)
    decreases n - |pre|, 0
  {
    hide Weight, RowSum, RowProduct, SumChoices;
    WeightGrows(a, n, pre, j);
    Expand(a, n, b, pre + [j]);
    InsideGrows(pre, b, j);
    Regroup(WeightInside(a, n, b, pre), RowProduct(a, n, b, |pre| + 1), a[|pre|][j]);
  }

  lemma InsideGrows(f: seq<nat>, b: seq<bool>, j: nat)
    requires j < |b|
    ensures Inside(f + [j], b) <==> Inside(f, b) && b[j]
  {
    if Inside(f + [j], b) {
      assert (f + [j])[|f|] == j;
      forall r | 0 <= r < |f| ensures f[r] < |b| && b[f[r]] { assert (f + [j])[r] == f[r]; }
    }
  }

  lemma Regroup(w: int, p: int, x: int)
    ensures (w * x) * p == (w * p) * x
  {
  }

  lemma Reorder(w: int, p: int, s: int)
    ensures (w * p) * s == w * (s * p)
  {
  }

  // ----- Exchanging the two sums -----

  lemma {:induction false} ChoicesEqual(n: nat, k: nat, pre: seq<nat>, f: seq<nat> -> int, g: seq<nat> -> int)
    requires forall x :: f(x) == g(x)
    ensures SumChoices(n, k, pre, f) == SumChoices(n, k, pre, g)
    decreases k
  {
    if k > 0 {
      forall j: nat | j < n ensures SumChoices(n, k - 1, pre + [j], f) == SumChoices(n, k - 1, pre + [j], g) {
        ChoicesEqual(n, k - 1, pre + [j], f, g);
      }
      SumEqual(n, (j: nat) => SumChoices(n, k - 1, pre + [j], f), (j: nat) => SumChoices(n, k - 1, pre + [j], g));
    }
  }

  lemma {:induction false} ChoicesAdd(n: nat, k: nat, pre: seq<nat>, f: seq<nat> -> int, g: seq<nat> -> int,
                                      h: seq<nat> -> int)
    requires forall x :: h(x) == f(x) + g(x)
    ensures SumChoices(n, k, pre, h) == SumChoices(n, k, pre, f) + SumChoices(n, k, pre, g)
    decreases k
  {
    if k > 0 {
      forall j: nat | j < n
        ensures SumChoices(n, k - 1, pre + [j], h) ==
          SumChoices(n, k - 1, pre + [j], f) + SumChoices(n, k - 1, pre + [j], g)
      {
        ChoicesAdd(n, k - 1, pre + [j], f, g, h);
      }
      SumAdds(n, (j: nat) => SumChoices(n, k - 1, pre + [j], f), (j: nat) => SumChoices(n, k - 1, pre + [j], g),
        (j: nat) => SumChoices(n, k - 1, pre + [j], h));
    }
  }

  lemma {:induction false} ChoicesScale(n: nat, k: nat, pre: seq<nat>, c: int, f: seq<nat> -> int, g: seq<nat> -> int)
    requires forall x :: g(x) == c * f(x)
    ensures SumChoices(n, k, pre, g) == c * SumChoices(n, k, pre, f)
    decreases k
  {
    if k > 0 {
      forall j: nat | j < n ensures SumChoices(n, k - 1, pre + [j], g) == c * SumChoices(n, k - 1, pre + [j], f) {
        ChoicesScale(n, k - 1, pre + [j], c, f, g);
      }
      SumScales(n, c, (j: nat) => SumChoices(n, k - 1, pre + [j], f), (j: nat) => SumChoices(n, k - 1, pre + [j], g));
    }
  }

  /** Summing over subsets, then over choices, is summing over choices, then over subsets. */
  lemma {:induction false} Exchange(k: nat, high: seq<bool>, n: nat, t: (seq<bool>, seq<nat>) -> int)
    ensures SumSubsets(k, high, b => SumChoices(n, n, [], f => t(b, f))) ==
      SumChoices(n, n, [], f => SumSubsets(k, high, b => t(b, f)))
    decreases k
  {
    var per := (f: seq<nat>) => SumSubsets(k, high, b => t(b, f));
    if k == 0 {
      forall f ensures per(f) == t(high, f) { }
      ChoicesEqual(n, n, [], f => t(high, f), per);
    } else {
      Exchange(k - 1, [false] + high, n, t);
      Exchange(k - 1, [true] + high, n, t);
      var without := (f: seq<nat>) => SumSubsets(k - 1, [false] + high, b => t(b, f));
      var with := (f: seq<nat>) => SumSubsets(k - 1, [true] + high, b => t(b, f));
      forall f ensures per(f) == without(f) + with(f) { }
      ChoicesAdd(n, n, [], without, with, per);
    }
  }

  // ----- Inclusion and exclusion -----

  /** Every column below `k` is chosen. */
  ghost predicate Covers(f: seq<nat>, k: nat) {
    forall j: nat :: j < k ==> j in f
  }

  /** The columns of `f` from `k` on lie in the subset that `high` decides for them. */
  ghost predicate InsideFrom(f: seq<nat>, k: nat, high: seq<bool>) {
    forall r :: 0 <= r < |f| && f[r] >= k ==> f[r] - k < |high| && high[f[r] - k]
  }

  ghost function SignIfInside(f: seq<nat>): seq<bool> -> int {
    b => if InsideFrom(f, 0, b) then SignOf(b) else 0
  }

  /** Over all subsets, the signs of those that contain a choice cancel, unless the choice covers every column. */
  lemma {:induction false} SignsCancel(f: seq<nat>, k: nat, high: seq<bool>)
    ensures SumSubsets(k, high, SignIfInside(f)) == if InsideFrom(f, k, high) && Covers(f, k) then SignOf(high) else 0
    decreases k
  {
    if k > 0 {
      SignsCancel(f, k - 1, [false] + high);
      SignsCancel(f, k - 1, [true] + high);
      Decide(f, k, high, false);
      Decide(f, k, high, true);
      assert Covers(f, k) <==> Covers(f, k - 1) && (k - 1) in f;
    }
  }

  lemma Decide(f: seq<nat>, k: nat, high: seq<bool>, bit: bool)
    requires k > 0
    ensures InsideFrom(f, k - 1, [bit] + high) <==> InsideFrom(f, k, high) && (bit || (k - 1) !in f)
    ensures SignOf([bit] + high) == (if bit then 1 else -1) * SignOf(high)
  {
    assert ([bit] + high)[1..] == high;
    if InsideFrom(f, k - 1, [bit] + high) {
      forall r | 0 <= r < |f| && f[r] >= k ensures f[r] - k < |high| && high[f[r] - k] {
        assert ([bit] + high)[f[r] - (k - 1)] == high[f[r] - k];
      }
      if (k - 1) in f {
        var r :| 0 <= r < |f| && f[r] == k - 1;
        assert ([bit] + high)[f[r] - (k - 1)] == bit;
      }
    }
    if InsideFrom(f, k, high) && (bit || (k - 1) !in f) {
      forall r | 0 <= r < |f| && f[r] >= k - 1
        ensures f[r] - (k - 1) < |[bit] + high| && ([bit] + high)[f[r] - (k - 1)]
      {
        if f[r] >= k {
          assert ([bit] + high)[f[r] - (k - 1)] == high[f[r] - k];
        } else {
          assert f[r] in f;
        }
      }
    }
  }

  // ----- A choice covers all columns exactly when it is a permutation -----

  ghost function Columns(f: seq<nat>): (s: set<nat>)
    ensures forall x :: x in s <==> x in f
    ensures |s| <= |f|
    ensures |s| == |f| <==> Distinct(f)
  {
    if f == [] then {} else
      var front := f[..|f| - 1];
      assert f == front + [f[|f| - 1]];
      assert Distinct(f) <==> Distinct(front) && f[|f| - 1] !in front by { DistinctGrows(front, f[|f| - 1]); }
      Columns(front) + {f[|f| - 1]}
  }

  lemma DistinctGrows(f: seq<nat>, x: nat)
    ensures Distinct(f + [x]) <==> Distinct(f) && x !in f
  {
    var g := f + [x];
    if Distinct(g) {
      forall i, j | 0 <= i < j < |f| ensures f[i] != f[j] { assert g[i] != g[j]; }
      forall i | 0 <= i < |f| ensures f[i] != x { assert g[i] != g[|f|]; }
    }
  }

  ghost function Below(n: nat): (s: set<nat>)
    ensures |s| == n && forall x: nat :: x in s <==> x < n
  {
    if n == 0 then {} else Below(n - 1) + {n - 1}
  }

  lemma CoversIffDistinct(f: seq<nat>, n: nat)
    requires |f| == n && forall r :: 0 <= r < |f| ==> f[r] < n
    ensures Covers(f, n) <==> Distinct(f)
  {
    var s, all := Columns(f), Below(n);
    forall x | x in s ensures x in all { }
    if Covers(f, n) {
      forall x: nat | x in all ensures x in s { }
      assert s == all;
    }
    if Distinct(f) {
      SubsetOfSameSize(s, all);
    }
  }

  lemma SubsetOfSameSize(s: set<nat>, t: set<nat>)
    requires s <= t && |s| == |t|
    ensures s == t
  {
    assert |t - s| == 0;
    assert t - s == {};
    forall x | x in t ensures x in s {
      assert x !in t - s;
    }
  }

  // ----- Ryser's formula -----

  /** The signed term of one subset. */
  ghost function RyserTerm(a: Grid, n: nat, b: seq<bool>): int {
    if IsGrid(a, n) && |b| == n then SignOf(b) * RowProduct(a, n, b, 0) else 0
  }

  ghost function SignedWeight(a: Grid, n: nat): (seq<bool>, seq<nat>) -> int {
    (b, f) => if |b| == n then SignOf(b) * Within(a, n, b)(f) else 0
  }

  lemma {:induction false} SubsetsEqual(k: nat, high: seq<bool>, n: nat, f: seq<bool> -> int, g: seq<bool> -> int)
    requires k + |high| == n && forall b: seq<bool> :: |b| == n ==> f(b) == g(b)
    ensures SumSubsets(k, high, f) == SumSubsets(k, high, g)
    decreases k
  {
    if k > 0 {
      SubsetsEqual(k - 1, [false] + high, n, f, g);
      SubsetsEqual(k - 1, [true] + high, n, f, g);
    }
  }

  /** The signed sum of row products over all subsets is the sum over all permutations. */
  lemma Ryser(a: Grid, n: nat)
    requires IsGrid(a, n)
    ensures SumSubsets(n, [], b => RyserTerm(a, n, b)) == Perm(a, n)
  {
    hide *;
    var t := SignedWeight(a, n);
    var bySubset := (b: seq<bool>) => SumChoices(n, n, [], f => t(b, f));
    var byChoice := (f: seq<nat>) => SumSubsets(n, [], b => t(b, f));
    forall b: seq<bool> | |b| == n ensures RyserTerm(a, n, b) == bySubset(b) {
      SubsetTerm(a, n, b);
    }
    SubsetsEqual(n, [], n, b => RyserTerm(a, n, b), bySubset);
    Exchange(n, [], n, t);
    forall f: seq<nat> | |f| == n && Choice(a, n, f) ensures byChoice(f) == Contribution(a, n, Distinct, f) {
      ChoiceTerm(a, n, f);
    }
    ChoicesEqualOn(a, n, n, [], byChoice, f => Contribution(a, n, Distinct, f));
    PermIs(a, n);
  }

  lemma PermIs(a: Grid, n: nat)
    requires IsGrid(a, n)
    ensures Perm(a, n) == SumChoices(n, n, [], f => Contribution(a, n, Distinct, f)) && Choice(a, n, [])
  {
  }

  lemma {:induction false} ChoicesEqualOn(a: Grid, n: nat, k: nat, pre: seq<nat>, f: seq<nat> -> int,
                                          g: seq<nat> -> int)
    requires Choice(a, n, pre) && |pre| + k == n
    requires forall x: seq<nat> :: |x| == n && Choice(a, n, x) ==> f(x) == g(x)
    ensures SumChoices(n, k, pre, f) == SumChoices(n, k, pre, g)
    decreases k
  {
    if k > 0 {
      forall j: nat | j < n ensures SumChoices(n, k - 1, pre + [j], f) == SumChoices(n, k - 1, pre + [j], g) {
        ChoicesEqualOn(a, n, k - 1, pre + [j], f, g);
      }
      SumEqual(n, (j: nat) => SumChoices(n, k - 1, pre + [j], f), (j: nat) => SumChoices(n, k - 1, pre + [j], g));
    }
  }

  lemma {:induction false} SubsetsScale(k: nat, high: seq<bool>, n: nat, c: int, f: seq<bool> -> int,
                                        g: seq<bool> -> int)
    requires k + |high| == n && forall b: seq<bool> :: |b| == n ==> g(b) == c * f(b)
    ensures SumSubsets(k, high, g) == c * SumSubsets(k, high, f)
    decreases k
  {
    if k > 0 {
      SubsetsScale(k - 1, [false] + high, n, c, f, g);
      SubsetsScale(k - 1, [true] + high, n, c, f, g);
    }
  }

  /** Over all subsets, the contributions of one choice add up to its weight, or cancel. */
  lemma ChoiceTerm(a: Grid, n: nat, f: seq<nat>)
    requires |f| == n && Choice(a, n, f)
    ensures SumSubsets(n, [], b => SignedWeight(a, n)(b, f)) == Contribution(a, n, Distinct, f)
  {
    hide SumSubsets, Weight, SignOf, Distinct, Covers;
    forall b: seq<bool> | |b| == n ensures SignedWeight(a, n)(b, f) == Weight(a, f) * SignIfInside(f)(b) {
      SignedWeightAt(a, n, b, f);
      WithinAt(a, n, b, f);
      assert Inside(f, b) <==> InsideFrom(f, 0, b);
      Swapped(SignOf(b), Weight(a, f));
    }
    SubsetsScale(n, [], n, Weight(a, f), SignIfInside(f), b => SignedWeight(a, n)(b, f));
    SignsCancel(f, n, []);
    CoversIffDistinct(f, n);
    assert InsideFrom(f, n, []);
    assert SignOf([]) == 1 by { NoColumns(); }
  }

  lemma Swapped(x: int, y: int)
    ensures x * y == y * x
  {
  }

  lemma SignedWeightAt(a: Grid, n: nat, b: seq<bool>, f: seq<nat>)
    requires |b| == n
    ensures SignedWeight(a, n)(b, f) == SignOf(b) * Within(a, n, b)(f)
  {
  }

  lemma NoColumns()
    ensures SignOf([]) == 1
  {
  }

  lemma SubsetTerm(a: Grid, n: nat, b: seq<bool>)
    requires IsGrid(a, n) && |b| == n
    ensures RyserTerm(a, n, b) == SumChoices(n, n, [], f => SignedWeight(a, n)(b, f))
  {
    hide Within, SumChoices, RowProduct, SignOf;
    Expand(a, n, b, []);
    assert WeightInside(a, n, b, []) == 1;
    var signed := (f: seq<nat>) => SignedWeight(a, n)(b, f);
    forall f ensures signed(f) == SignOf(b) * Within(a, n, b)(f) { SignedWeightAt(a, n, b, f); }
    ChoicesScale(n, n, [], SignOf(b), Within(a, n, b), signed);
  }

  // ----- The loop over bit masks -----

  function Power2(n: nat): nat {
    if n == 0 then 1 else 2 * Power2(n - 1)
  }

  /** s & (1 << j) */
  predicate Bit(s: nat, j: nat) {
    if j == 0 then s % 2 == 1 else Bit(s / 2, j - 1)
  }

  function Bits(s: nat, k: nat): (b: seq<bool>)
    ensures |b| == k && forall j :: 0 <= j < k ==> b[j] == Bit(s, j)
  {
    seq(k, j requires 0 <= j < k => Bit(s, j))
  }

  lemma {:induction false} HighBit(s: nat, k: nat)
    requires s < Power2(k)
    ensures !Bit(s, k) && Bit(s + Power2(k), k)
    ensures forall j: nat :: j < k ==> Bit(s + Power2(k), j) == Bit(s, j)
  {
    if k > 0 {
      HighBit(s / 2, k - 1);
      assert (s + Power2(k)) / 2 == s / 2 + Power2(k - 1);
      forall j: nat | j < k ensures Bit(s + Power2(k), j) == Bit(s, j) {
        if j > 0 { assert Bit(s + Power2(k), j) == Bit((s + Power2(k)) / 2, j - 1); }
      }
    }
  }

  ghost function Shifted(f: nat -> int, m: nat): nat -> int {
    (j: nat) => f(m + j)
  }

  lemma {:induction false} SumSplit(m: nat, n: nat, f: nat -> int)
    ensures Sum(m + n, f) == Sum(m, f) + Sum(n, Shifted(f, m))
  {
    if n > 0 {
      SumSplit(m, n - 1, f);
    }
  }

  lemma MaskHalves(s: nat, k: nat, high: seq<bool>)
    requires k > 0 && s < Power2(k - 1)
    ensures Bits(s, k) + high == Bits(s, k - 1) + ([false] + high)
    ensures Bits(Power2(k - 1) + s, k) + high == Bits(s, k - 1) + ([true] + high)
  {
    HighBit(s, k - 1);
  }

  lemma PowerDoubles(k: nat)
    requires k > 0
    ensures Power2(k) == Power2(k - 1) + Power2(k - 1)
  {
  }

  ghost function MaskTerm(k: nat, high: seq<bool>, f: seq<bool> -> int): nat -> int {
    (s: nat) => f(Bits(s, k) + high)
  }

  lemma LowerSum(k: nat, high: seq<bool>, f: seq<bool> -> int)
    requires k > 0
    ensures Sum(Power2(k - 1), MaskTerm(k, high, f)) == Sum(Power2(k - 1), MaskTerm(k - 1, [false] + high, f))
  {
    hide Bits, Power2, Sum;
    forall s: nat | s < Power2(k - 1) ensures MaskTerm(k, high, f)(s) == MaskTerm(k - 1, [false] + high, f)(s) {
      MaskHalves(s, k, high);
    }
    SumEqual(Power2(k - 1), MaskTerm(k, high, f), MaskTerm(k - 1, [false] + high, f));
  }

  lemma UpperSum(k: nat, high: seq<bool>, f: seq<bool> -> int)
    requires k > 0
    ensures Sum(Power2(k - 1), Shifted(MaskTerm(k, high, f), Power2(k - 1))) ==
      Sum(Power2(k - 1), MaskTerm(k - 1, [true] + high, f))
  {
    hide Bits, Power2, Sum;
    var upper := Shifted(MaskTerm(k, high, f), Power2(k - 1));
    forall s: nat | s < Power2(k - 1) ensures upper(s) == MaskTerm(k - 1, [true] + high, f)(s) {
      MaskHalves(s, k, high);
    }
    SumEqual(Power2(k - 1), upper, MaskTerm(k - 1, [true] + high, f));
  }

  /** Summing over the masks below 2^k is summing over the subsets of the first k columns. */
  lemma {:induction false} MasksAreSubsets(k: nat, high: seq<bool>, f: seq<bool> -> int)
    ensures Sum(Power2(k), MaskTerm(k, high, f)) == SumSubsets(k, high, f)
    decreases k
  {
    if k == 0 {
      OneMask(high, f);
    } else {
      hide Power2, Sum, MaskTerm, Shifted;
      PowerDoubles(k);
      MasksAreSubsets(k - 1, [false] + high, f);
      MasksAreSubsets(k - 1, [true] + high, f);
      SumSplit(Power2(k - 1), Power2(k - 1), MaskTerm(k, high, f));
      LowerSum(k, high, f);
      UpperSum(k, high, f);
    }
  }

  lemma OneMask(high: seq<bool>, f: seq<bool> -> int)
    ensures Sum(Power2(0), MaskTerm(0, high, f)) == f(high)
  {
    var g := MaskTerm(0, high, f);
    assert Bits(0, 0) + high == high;
    assert Sum(1, g) == Sum(0, g) + g(0);
  }

  // ----- The program -----

  ghost function Count(b: seq<bool>): nat {
    if b == [] then 0 else Count(b[1..]) + (if b[0] then 1 else 0)
  }

  lemma {:induction false} CountSplits(b: seq<bool>, c: bool)
    ensures Count(b + [c]) == Count(b) + (if c then 1 else 0)
  {
    if b == [] {
      assert b + [c] == [c] && [c][1..] == [];
      assert Count([c][1..]) == 0;
    } else {
      assert (b + [c])[1..] == b[1..] + [c];
      CountSplits(b[1..], c);
    }
  }

  /** The parity test of the loop is the sign of the subset. */
  lemma {:induction false} SignByParity(b: seq<bool>)
    ensures Count(b) <= |b|
    ensures SignOf(b) == if (|b| - Count(b)) % 2 == 0 then 1 else -1
  {
    if b != [] {
      SignByParity(b[1..]);
    }
  }

  method SubsetSize(s: nat, n: nat) returns (size: nat)
    ensures size == Count(Bits(s, n))
  {
    size := 0;
    assert Bits(s, 0) == [];
    for j := 0 to n
      invariant size == Count(Bits(s, j))
    {
      CountSplits(Bits(s, j), Bit(s, j));
      assert Bits(s, j + 1) == Bits(s, j) + [Bit(s, j)];
      if Bit(s, j) {
        size := size + 1;
      }
    }
  }

  lemma {:induction false} ProductBackwards(a: Grid, n: nat, b: seq<bool>, r: nat, p: int)
    requires IsGrid(a, n) && |b| == n && r < n
    ensures (p * RowSum(a[r], b, n)) * RowProduct(a, n, b, r + 1) == p * RowProduct(a, n, b, r)
  {
    hide RowSum;
    var x, y := RowSum(a[r], b, n), RowProduct(a, n, b, r + 1);
    assert (p * x) * y == p * (x * y);
  }

  method SubsetProduct(a: Grid, n: nat, s: nat) returns (prod: int)
    requires IsGrid(a, n)
    ensures prod == RowProduct(a, n, Bits(s, n), 0)
  {
    hide RowProduct, RowSum;
    prod := 1;
    ghost var b := Bits(s, n);
    for i := 0 to n
      invariant prod * RowProduct(a, n, b, i) == RowProduct(a, n, b, 0)
    {
      var rowSum := 0;
      EmptyRowSum(a[i], b);
      for j := 0 to n
        invariant rowSum == RowSum(a[i], b, j)
      {
        NextRowSum(a[i], b, j);
        if Bit(s, j) {
          rowSum := rowSum + a[i][j];
        }
      }
      ProductBackwards(a, n, b, i, prod);
      prod := prod * rowSum;
    }
    LastProduct(a, n, b);
  }

  lemma EmptyRowSum(row: seq<int>, b: seq<bool>)
    ensures RowSum(row, b, 0) == 0
  {
  }

  lemma NextRowSum(row: seq<int>, b: seq<bool>, k: nat)
    requires k < |row| && k < |b|
    ensures RowSum(row, b, k + 1) == RowSum(row, b, k) + (if b[k] then row[k] else 0)
  {
  }

  lemma LastProduct(a: Grid, n: nat, b: seq<bool>)
    requires IsGrid(a, n) && |b| == n
    ensures RowProduct(a, n, b, n) == 1
  {
  }

  /** Nothing is summed for the empty subset. */
  lemma EmptySubset(a: Grid, n: nat)
    requires IsGrid(a, n) && n > 0
    ensures RyserTerm(a, n, Bits(0, n)) == 0
  {
    forall j | 0 <= j < n ensures !Bits(0, n)[j] { NoBits(j); }
    EmptySum(a[0], Bits(0, n), n);
  }

  lemma {:induction false} NoBits(j: nat)
    ensures !Bit(0, j)
  {
    if j > 0 {
      NoBits(j - 1);
    }
  }

  lemma {:induction false} EmptySum(row: seq<int>, b: seq<bool>, k: nat)
    requires k <= |row| && k <= |b| && forall j :: 0 <= j < |b| ==> !b[j]
    ensures RowSum(row, b, k) == 0
  {
    if k > 0 {
      EmptySum(row, b, k - 1);
    }
  }

  /** 1 << n in a 32-bit int, for the shift counts where it is defined. */
  function Shift32(n: nat): int
    requires n < 32
  {
    if n == 31 then -0x8000_0000 else Power2(n)
  }

  /** What comes out for an n by n matrix: at 31 columns the number of subsets overflows and the loop is skipped. */
  ghost function Outcome(a: Grid, n: nat): int {
    if n <= 30 then Perm(a, n) else 0
  }

  method Compute(a: Grid, n: nat) returns (perm: int)
    requires IsGrid(a, n) && n < 32
    ensures perm == Outcome(a, n)
  {
    hide Perm, RyserTerm, Power2;
    if n == 0 {
      PermEmpty(a);
      return 1;
    }
    if n == 1 {
      PermOne(a);
      return a[0][0];
    }
    Positive(n);
    perm := 0;
    var s, subsets := 1, Shift32(n);
    ghost var term := (m: nat) => RyserTerm(a, n, Bits(m, n));
    EmptySubset(a, n);
    assert Sum(1, term) == Sum(0, term) + term(0);
    while s < subsets
      invariant 1 <= s && (n <= 30 ==> s <= Power2(n)) && (n == 31 ==> s == 1 && perm == 0)
      invariant n <= 30 ==> perm == Sum(s, term)
    {
      var size := SubsetSize(s, n);
      var prod := SubsetProduct(a, n, s);
      SignByParity(Bits(s, n));
      assert term(s) == if (n - size) % 2 != 0 then -prod else prod by { TermAt(a, n, s); }
      if (n - size) % 2 != 0 {
        perm := perm - prod;
      } else {
        perm := perm + prod;
      }
      s := s + 1;
    }
    if n <= 30 {
      assert s == Power2(n);
      var f := b => RyserTerm(a, n, b);
      forall m: nat | m < Power2(n) ensures term(m) == MaskTerm(n, [], f)(m) { assert Bits(m, n) + [] == Bits(m, n); }
      SumEqual(Power2(n), term, MaskTerm(n, [], f));
      MasksAreSubsets(n, [], f);
      Ryser(a, n);
    }
  }

  lemma {:induction false} Positive(n: nat)
    ensures Power2(n) >= 1
  {
    if n > 0 {
      Positive(n - 1);
    }
  }

  lemma TermAt(a: Grid, n: nat, s: nat)
    requires IsGrid(a, n)
    ensures RyserTerm(a, n, Bits(s, n)) == SignOf(Bits(s, n)) * RowProduct(a, n, Bits(s, n), 0)
  {
  }

  lemma PermEmpty(a: Grid)
    requires IsGrid(a, 0)
    ensures Perm(a, 0) == 1
  {
  }

  lemma PermOne(a: Grid)
    requires IsGrid(a, 1)
    ensures Perm(a, 1) == a[0][0]
  {
    var f := (f: seq<nat>) => Contribution(a, 1, Distinct, f);
    var t := (j: nat) => SumChoices(1, 0, [] + [j], f);
    assert SumChoices(1, 1, [], f) == Sum(1, t);
    assert Sum(1, t) == Sum(0, t) + t(0);
    assert [] + [0] == [0];
    assert [0][..0] == [];
    assert Weight(a, [0]) == Weight(a, []) * a[0][0];
  }

  // ----- The first size at which the shift overflows -----

  function Identity(n: nat): (a: Grid)
    ensures IsGrid(a, n)
  {
    seq(n, i => seq(n, j => if i == j then 1 else 0))
  }

  predicate AllTrue(b: seq<bool>) {
    forall j :: 0 <= j < |b| ==> b[j]
  }

  lemma {:induction false} IdentityRowSum(n: nat, b: seq<bool>, i: nat, k: nat)
    requires i < n && k <= n && |b| == n
    ensures RowSum(Identity(n)[i], b, k) == if i < k && b[i] then 1 else 0
  {
    if k > 0 {
      IdentityRowSum(n, b, i, k - 1);
    }
  }

  lemma {:induction false} IdentityProduct(n: nat, b: seq<bool>, r: nat)
    requires |b| == n && r <= n
    ensures RowProduct(Identity(n), n, b, r) == if AllTrue(b[r..]) then 1 else 0
    decreases n - r
  {
    if r < n {
      IdentityProduct(n, b, r + 1);
      IdentityRowSum(n, b, r, n);
      assert b[r..] == [b[r]] + b[r + 1..];
    }
  }

  lemma {:induction false} SignAllTrue(b: seq<bool>)
    requires AllTrue(b)
    ensures SignOf(b) == 1
  {
    if b != [] {
      SignAllTrue(b[1..]);
    }
  }

  ghost function IfAllTrue(): seq<bool> -> int {
    b => if AllTrue(b) then 1 else 0
  }

  lemma {:induction false} OneAllTrue(k: nat, high: seq<bool>)
    ensures SumSubsets(k, high, IfAllTrue()) == if AllTrue(high) then 1 else 0
    decreases k
  {
    if k > 0 {
      OneAllTrue(k - 1, [false] + high);
      OneAllTrue(k - 1, [true] + high);
      assert !AllTrue([false] + high) by { assert ([false] + high)[0] == false; }
      if AllTrue([true] + high) {
        forall j | 0 <= j < |high| ensures high[j] { assert ([true] + high)[j + 1] == high[j]; }
      }
    }
  }

  /** The identity matrix has permanent 1. */
  lemma IdentityPermanent(n: nat)
    ensures Perm(Identity(n), n) == 1
  {
    hide Perm, SumSubsets, RowProduct, SignOf;
    var a := Identity(n);
    forall b: seq<bool> | |b| == n ensures RyserTerm(a, n, b) == IfAllTrue()(b) {
      IdentityProduct(n, b, 0);
      assert b[0..] == b;
      if AllTrue(b) { SignAllTrue(b); }
    }
    SubsetsEqual(n, [], n, b => RyserTerm(a, n, b), IfAllTrue());
    OneAllTrue(n, []);
    Ryser(a, n);
  }

  /** Every matrix of a size gets its permanent if and only if the size is at most 30. */
  lemma RightExactly(n: nat)
    requires n < 32
    ensures (forall a: Grid | IsGrid(a, n) :: Outcome(a, n) == Perm(a, n)) <==> n <= 30
  {
    IdentityPermanent(n);
    assert Outcome(Identity(n), n) == if n <= 30 then 1 else 0;
  }
}
