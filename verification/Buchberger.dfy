/** Buchberger's loop and the reduction of a basis (src/cas/Groebner.cpp:406-418, 478-610). */
module Buchberger {
  import opened RealProducts
  import opened MonomialOrder
  import opened MultiPoly
  import opened PolyIdeal
  import opened StandardRepresentation
  import opened PolyDivision
  import opened BuchbergerCriterion

  // ----- S-polynomials -----

  ghost function CrossDifference(f: Poly, g: Poly, n: nat, k: Mono): real
    requires Canonical(f, n) && Canonical(g, n) && f != [] && g != []
  {
    var l := Lcm(f[0].mono, g[0].mono);
    Shift(g[0].coeff, Over(l, f[0].mono), f, k) - Shift(f[0].coeff, Over(l, g[0].mono), g, k)
  }

  /** Both multiples have the same leading term, so the S-polynomial lies below the common multiple. */
  lemma CrossFalls(f: Poly, g: Poly, n: nat, k: Mono)
    requires Canonical(f, n) && Canonical(g, n) && f != [] && g != [] && |k| == n
    requires CrossDifference(f, g, n, k) != 0.0
    ensures Less(k, Lcm(f[0].mono, g[0].mono))
  {
    hide Coeff, Less, Shift, Times, Over, Divides;
    var l := Lcm(f[0].mono, g[0].mono);
    LcmDivided(f[0].mono, g[0].mono);
    TimesOver(f[0].mono, l);
    TimesOver(g[0].mono, l);
    LessTrichotomy(k, l);
    if k == l {
      ShiftAtLead(g[0].coeff, Over(l, f[0].mono), f, n);
      ShiftAtLead(f[0].coeff, Over(l, g[0].mono), g, n);
    } else if Less(l, k) {
      ShiftAbove(g[0].coeff, Over(l, f[0].mono), f, n, k);
      ShiftAbove(f[0].coeff, Over(l, g[0].mono), g, n, k);
    }
  }

  method SPolynomial(f: Poly, g: Poly, s: Scaling, n: nat) returns (res: Poly, ghost c: real)
    requires Canonical(f, n) && Canonical(g, n) && NonZeroScaling(s)
    ensures Canonical(res, n) && c != 0.0
    ensures f != [] && g != [] ==> forall k: Mono :: |k| == n ==> Coeff(res, k) == c * CrossDifference(f, g, n, k)
    ensures forall gens: seq<Poly> :: f in gens && g in gens ==> InIdeal(Of(res), gens, n)
    ensures res != [] ==> f != [] && g != [] && Less(res[0].mono, Lcm(f[0].mono, g[0].mono))
  {
    hide Coeff, Less, InIdeal, Shift, Over, Divides;
    if f == [] || g == [] {
      forall gens: seq<Poly> ensures InIdeal(Of([]), gens, n) { ZeroInIdeal(gens, n); }
      return [], 1.0;
    }
    var l := Lcm(f[0].mono, g[0].mono);
    var left := TimesTerm(f, g[0].coeff, Over(l, f[0].mono), n);
    var right := TimesTerm(g, f[0].coeff, Over(l, g[0].mono), n);
    var diff := Subtract(left, right, n);
    res := MakePrimitive(diff, s, n);
    c := s.primitive(diff);
    forall k: Mono | |k| == n ensures Coeff(res, k) == c * CrossDifference(f, g, n, k) { }
    forall gens: seq<Poly> | f in gens && g in gens ensures InIdeal(Of(res), gens, n) {
      CrossInIdeal(f, g, n, c, res, gens);
    }
    if res != [] {
      CoeffAt(res, n, 0);
      assert c * CrossDifference(f, g, n, res[0].mono) != 0.0;
      CrossFalls(f, g, n, res[0].mono);
    }
  }

  lemma ZeroInIdeal(gens: seq<Poly>, n: nat)
    ensures InIdeal(Of([]), gens, n)
  {
    IdealZero(Of([]), gens, n);
  }

  lemma CrossInIdeal(f: Poly, g: Poly, n: nat, c: real, res: Poly, gens: seq<Poly>)
    requires Canonical(f, n) && Canonical(g, n) && f != [] && g != [] && f in gens && g in gens
    requires forall k: Mono :: |k| == n ==> Coeff(res, k) == c * CrossDifference(f, g, n, k)
    ensures InIdeal(Of(res), gens, n)
  {
    hide Coeff, InIdeal, Over, Divides, CrossDifference, TimesMono, Less;
    var i: nat :| i < |gens| && gens[i] == f;
    var j: nat :| j < |gens| && gens[j] == g;
    GeneratorInIdeal(gens, i, n);
    GeneratorInIdeal(gens, j, n);
    var l := Lcm(f[0].mono, g[0].mono);
    var x, y := c * g[0].coeff, -(c * f[0].coeff);
    IdealTimes(Of(f), gens, n, x, Over(l, f[0].mono));
    IdealTimes(Of(g), gens, n, y, Over(l, g[0].mono));
    forall k: Mono | |k| == n
      ensures Of(res)(k) == TimesMono(x, Over(l, f[0].mono), Of(f))(k) + TimesMono(y, Over(l, g[0].mono), Of(g))(k)
    {
      CrossAt(f, g, n, c, k, x, y);
    }
    IdealAdd(TimesMono(x, Over(l, f[0].mono), Of(f)), TimesMono(y, Over(l, g[0].mono), Of(g)), Of(res), gens, n);
  }

  lemma CrossAt(f: Poly, g: Poly, n: nat, c: real, k: Mono, x: real, y: real)
    requires Canonical(f, n) && Canonical(g, n) && f != [] && g != [] && |k| == n
    requires x == c * g[0].coeff && y == -(c * f[0].coeff)
    ensures var l := Lcm(f[0].mono, g[0].mono);
      c * CrossDifference(f, g, n, k) ==
        TimesMono(x, Over(l, f[0].mono), Of(f))(k) + TimesMono(y, Over(l, g[0].mono), Of(g))(k)
  {
    hide Coeff, Over, Divides, Shift, TimesMono, Less, CrossDifference;
    var l := Lcm(f[0].mono, g[0].mono);
    var left, right := Shift(g[0].coeff, Over(l, f[0].mono), f, k), Shift(f[0].coeff, Over(l, g[0].mono), g, k);
    SplitScale(c, f[0].coeff, left, right);
    ScaledShift(c, g[0].coeff, Over(l, f[0].mono), f, k, x);
    ScaledShift(-c, f[0].coeff, Over(l, g[0].mono), g, k, y);
    CrossIs(f, g, n, k);
  }

  lemma CrossIs(f: Poly, g: Poly, n: nat, k: Mono)
    requires Canonical(f, n) && Canonical(g, n) && f != [] && g != []
    ensures var l := Lcm(f[0].mono, g[0].mono);
      CrossDifference(f, g, n, k) ==
        Shift(g[0].coeff, Over(l, f[0].mono), f, k) - Shift(f[0].coeff, Over(l, g[0].mono), g, k)
  {
    hide Coeff, Over, Divides, Shift, Less;
  }

  lemma ScaledShift(c: real, a: real, m: Mono, f: Poly, k: Mono, x: real)
    requires |m| == |k| && x == c * a
    ensures c * Shift(a, m, f, k) == TimesMono(x, m, Of(f))(k)
  {
    hide Coeff, Over, Divides;
    if Divides(m, k) {
      assert c * (a * Coeff(f, Over(k, m))) == (c * a) * Coeff(f, Over(k, m));
    }
  }

  lemma SplitScale(c: real, a: real, x: real, y: real)
    ensures c * (x - y) == c * x + -c * y && -c * a == -(c * a)
  {
  }

  // ----- Critical pairs -----

  /** max_iters */
  const LIMIT: nat := 1000

  datatype CriticalPair = CriticalPair(i: nat, j: nat, lcmDegree: nat)

  function Degree(m: Mono): nat {
    if m == [] then 0 else m[0] + Degree(m[1..])
  }

  ghost predicate Listed(pairs: seq<CriticalPair>, i: nat, j: nat) {
    exists x :: 0 <= x < |pairs| && pairs[x].i == i && pairs[x].j == j
  }

  /** Every pair occurs once, smaller index first. */
  ghost predicate PairsOnce(pairs: seq<CriticalPair>, count: nat) {
    && (forall x :: 0 <= x < |pairs| ==> pairs[x].i < pairs[x].j < count)
    && (forall x, y :: 0 <= x < y < |pairs| ==> pairs[x].i != pairs[y].i || pairs[x].j != pairs[y].j)
  }

  ghost predicate Table(inB: seq<seq<bool>>, count: nat) {
    |inB| == count && forall i :: 0 <= i < count ==> |inB[i]| == count
  }

  /** The table marks, symmetrically, exactly the pairs on the worklist. */
  ghost predicate Agrees(pairs: seq<CriticalPair>, inB: seq<seq<bool>>, count: nat) {
    && Table(inB, count) && PairsOnce(pairs, count)
    && forall i: nat, j: nat :: i < j < count ==> (inB[i][j] <==> Listed(pairs, i, j)) && inB[j][i] == inB[i][j]
  }

  /** The worklist by falling degree, so that the last pair has the least one. */
  ghost predicate ByDegree(pairs: seq<CriticalPair>) {
    forall x, y :: 0 <= x < y < |pairs| ==> pairs[x].lcmDegree >= pairs[y].lcmDegree
  }

  ghost predicate SamePairs(a: seq<CriticalPair>, b: seq<CriticalPair>) {
    forall i, j :: Listed(a, i, j) <==> Listed(b, i, j)
  }

  /** std::sort(B), as an insertion sort. */
  method SortPairs(pairs: seq<CriticalPair>, count: nat) returns (r: seq<CriticalPair>)
    requires PairsOnce(pairs, count)
    ensures ByDegree(r) && PairsOnce(r, count) && SamePairs(r, pairs) && |r| == |pairs|
  {
    r := [];
    for x := 0 to |pairs|
      invariant ByDegree(r) && PairsOnce(r, count) && SamePairs(r, pairs[..x]) && |r| == x
    {
      ghost var before := r;
      assert !Listed(r, pairs[x].i, pairs[x].j) by { assert !Listed(pairs[..x], pairs[x].i, pairs[x].j); }
      r := InsertPair(r, pairs[x], count);
      assert pairs[..x + 1] == pairs[..x] + [pairs[x]];
      ListedAppend(pairs[..x], pairs[x]);
      ListedAppend(before, pairs[x]);
    }
    assert pairs[..|pairs|] == pairs;
  }

  lemma ListedAppend(pairs: seq<CriticalPair>, t: CriticalPair)
    ensures forall i, j :: Listed(pairs + [t], i, j) <==> Listed(pairs, i, j) || (t.i == i && t.j == j)
  {
    forall i, j ensures Listed(pairs + [t], i, j) <==> Listed(pairs, i, j) || (t.i == i && t.j == j) {
      if x :| 0 <= x < |pairs| && pairs[x].i == i && pairs[x].j == j {
        assert (pairs + [t])[x] == pairs[x];
      }
      if t.i == i && t.j == j {
        assert (pairs + [t])[|pairs|] == t;
      }
    }
  }

  method InsertPair(pairs: seq<CriticalPair>, t: CriticalPair, count: nat) returns (r: seq<CriticalPair>)
    requires ByDegree(pairs) && PairsOnce(pairs, count) && t.i < t.j < count && !Listed(pairs, t.i, t.j)
    ensures ByDegree(r) && PairsOnce(r, count) && SamePairs(r, pairs + [t]) && |r| == |pairs| + 1
  {
    var y := 0;
    while y < |pairs| && pairs[y].lcmDegree >= t.lcmDegree
      invariant 0 <= y <= |pairs| && forall z :: 0 <= z < y ==> pairs[z].lcmDegree >= t.lcmDegree
    {
      y := y + 1;
    }
    r := pairs[..y] + [t] + pairs[y..];
    InsertedPairs(pairs, t, y, r, count);
  }

  lemma InsertedPairs(pairs: seq<CriticalPair>, t: CriticalPair, y: nat, r: seq<CriticalPair>, count: nat)
    requires PairsOnce(pairs, count) && t.i < t.j < count && !Listed(pairs, t.i, t.j)
    requires y <= |pairs| && r == pairs[..y] + [t] + pairs[y..]
    ensures PairsOnce(r, count) && SamePairs(r, pairs + [t])
  {
    hide PairsOnce, Listed;
    InsertedOnce(pairs, t, y, r, count);
    forall i, j ensures Listed(r, i, j) <==> Listed(pairs + [t], i, j) {
      InsertedListed(pairs, t, y, r, i, j);
    }
  }

  lemma InsertedOnce(pairs: seq<CriticalPair>, t: CriticalPair, y: nat, r: seq<CriticalPair>, count: nat)
    requires PairsOnce(pairs, count) && t.i < t.j < count && !Listed(pairs, t.i, t.j)
    requires y <= |pairs| && r == pairs[..y] + [t] + pairs[y..]
    ensures PairsOnce(r, count)
  {
    assert forall x :: 0 <= x < y ==> r[x] == pairs[x];
    assert forall x :: y < x < |r| ==> r[x] == pairs[x - 1];
  }

  lemma InsertedListed(pairs: seq<CriticalPair>, t: CriticalPair, y: nat, r: seq<CriticalPair>, i: nat, j: nat)
    requires y <= |pairs| && r == pairs[..y] + [t] + pairs[y..]
    ensures Listed(r, i, j) <==> Listed(pairs + [t], i, j)
  {
    ListedAppend(pairs, t);
    if Listed(r, i, j) {
      var x :| 0 <= x < |r| && r[x].i == i && r[x].j == j;
      if x < y { assert r[x] == pairs[x]; } else if x > y { assert r[x] == pairs[x - 1]; }
    }
    if Listed(pairs, i, j) {
      var x :| 0 <= x < |pairs| && pairs[x].i == i && pairs[x].j == j;
      assert r[if x < y then x else x + 1] == pairs[x];
    }
    assert r[y] == t;
  }

  // ----- Buchberger's criteria -----

  /** First criterion: the two leading monomials share no variable. */
  method RelativelyPrime(a: Mono, b: Mono) returns (prime: bool)
    requires |a| == |b|
    ensures prime <==> forall v :: 0 <= v < |a| ==> a[v] == 0 || b[v] == 0
  {
    prime := true;
    for v := 0 to |a|
      invariant prime <==> forall w :: 0 <= w < v ==> a[w] == 0 || b[w] == 0
    {
      if a[v] > 0 && b[v] > 0 {
        prime := false;
      }
    }
  }

  // ----- The loop -----

  /** Generators with pairwise distinct leading monomials. */
  ghost predicate DistinctLeads(gens: seq<Poly>) {
    forall i, j :: 0 <= i < j < |gens| && gens[i] != [] && gens[j] != [] ==> gens[i][0].mono != gens[j][0].mono
  }

  ghost predicate LeadsKept(gens: seq<Poly>, generators: seq<Poly>) {
    DistinctLeads(generators) ==> DistinctLeads(gens)
  }

  method PrimitiveGenerators(generators: seq<Poly>, s: Scaling, n: nat) returns (gens: seq<Poly>)
    requires AllCanonical(generators, n) && NonZeroScaling(s)
    ensures AllCanonical(gens, n) && AllNonZero(gens) && SameIdeal(gens, generators, n) && |gens| <= |generators|
    ensures LeadsKept(gens, generators)
  {
    hide InIdeal, Coeff, Canonical;
    gens := [];
    ghost var at: seq<nat> := [];
    for i := 0 to |generators|
      invariant AllCanonical(gens, n) && AllNonZero(gens) && |gens| <= i && |at| == |gens|
      invariant forall x :: 0 <= x < |at| ==>
        at[x] < i && generators[at[x]] != [] && generators[at[x]][0].mono == gens[x][0].mono
      invariant forall x, y :: 0 <= x < y < |at| ==> at[x] < at[y]
      invariant Within(gens, generators, n)
      invariant Within(generators[..i], gens, n)
    {
      var g := generators[i];
      assert generators[..i + 1] == generators[..i] + [g];
      if g != [] {
        var p := MakePrimitive(g, s, n);
        TakePrimitive(generators, i, gens, p, s.primitive(g), n);
        gens := gens + [p];
        at := at + [i];
      } else {
        ZeroInIdeal(gens, n);
        WithinAppend(generators[..i], g, gens, n);
      }
    }
    assert generators[..|generators|] == generators;
  }

  /** One more generator, scaled, keeps both inclusions. */
  lemma TakePrimitive(generators: seq<Poly>, i: nat, gens: seq<Poly>, p: Poly, c: real, n: nat)
    requires i < |generators| && c != 0.0 && forall k :: Coeff(p, k) == c * Coeff(generators[i], k)
    requires Within(gens, generators, n) && Within(generators[..i], gens, n)
    ensures Within(gens + [p], generators, n) && Within(generators[..i] + [generators[i]], gens + [p], n)
  {
    hide InIdeal, Coeff, Within;
    var g := generators[i];
    var longer := gens + [p];
    GeneratorInIdeal(generators, i, n);
    IdealScale(Of(g), Of(p), generators, n, c);
    WithinAppend(gens, p, generators, n);
    GeneratorInIdeal(longer, |gens|, n);
    Unscale(g, p, c, n);
    IdealScale(Of(p), Of(g), longer, n, 1.0 / c);
    WithinLonger(gens, p, n);
    WithinTransitive(generators[..i], gens, longer, n);
    WithinAppend(generators[..i], g, longer, n);
  }

  lemma WithinAppend(a: seq<Poly>, p: Poly, gens: seq<Poly>, n: nat)
    requires Within(a, gens, n) && InIdeal(Of(p), gens, n)
    ensures Within(a + [p], gens, n)
  {
    hide InIdeal, Coeff;
  }

  lemma Unscale(g: Poly, p: Poly, c: real, n: nat)
    requires c != 0.0 && forall k :: Coeff(p, k) == c * Coeff(g, k)
    ensures forall k: Mono :: |k| == n ==> Of(g)(k) == (1.0 / c) * Of(p)(k)
  {
    forall k: Mono | |k| == n ensures Of(g)(k) == (1.0 / c) * Of(p)(k) {
      assert (1.0 / c) * (c * Coeff(g, k)) == ((1.0 / c) * c) * Coeff(g, k);
      assert (1.0 / c) * c == 1.0;
    }
  }

  lemma WithinLonger(gens: seq<Poly>, p: Poly, n: nat)
    ensures Within(gens, gens + [p], n)
  {
    hide InIdeal;
    forall i | 0 <= i < |gens| ensures InIdeal(Of(gens[i]), gens + [p], n) {
      GeneratorInIdeal(gens + [p], i, n);
      assert (gens + [p])[i] == gens[i];
    }
  }

  function Marked(inB: seq<seq<bool>>, i: nat, j: nat, value: bool, ghost count: nat): (r: seq<seq<bool>>)
    requires Table(inB, count) && i < count && j < count && i != j
    ensures Table(r, count)
    ensures forall a, b :: 0 <= a < count && 0 <= b < count ==>
      r[a][b] == if (a == i && b == j) || (a == j && b == i) then value else inB[a][b]
  {
    var t := inB[i := inB[i][j := value]];
    t[j := t[j][i := value]]
  }

  lemma MarkListed(pairs: seq<CriticalPair>, inB: seq<seq<bool>>, count: nat, t: CriticalPair)
    requires Agrees(pairs, inB, count) && t.i < t.j < count && !Listed(pairs, t.i, t.j)
    ensures Agrees(pairs + [t], Marked(inB, t.i, t.j, true, count), count)
  {
    ListedAppend(pairs, t);
    OnceAppend(pairs, count, t);
  }

  lemma OnceAppend(pairs: seq<CriticalPair>, count: nat, t: CriticalPair)
    requires PairsOnce(pairs, count) && t.i < t.j < count && !Listed(pairs, t.i, t.j)
    ensures PairsOnce(pairs + [t], count)
  {
  }

  lemma MarkTaken(pairs: seq<CriticalPair>, inB: seq<seq<bool>>, count: nat)
    requires Agrees(pairs, inB, count) && pairs != []
    ensures var t := pairs[|pairs| - 1];
      t.i < t.j < count && Agrees(pairs[..|pairs| - 1], Marked(inB, t.i, t.j, false, count), count)
  {
    var t, rest := pairs[|pairs| - 1], pairs[..|pairs| - 1];
    assert pairs == rest + [t];
    ListedAppend(rest, t);
    assert !Listed(rest, t.i, t.j);
  }

  lemma SortedAgrees(pairs: seq<CriticalPair>, sorted: seq<CriticalPair>, inB: seq<seq<bool>>, count: nat)
    requires Agrees(pairs, inB, count) && PairsOnce(sorted, count) && SamePairs(sorted, pairs)
    ensures Agrees(sorted, inB, count)
  {
  }

  /** Adds row and column `count` to the table, unmarked. */
  function Grown(inB: seq<seq<bool>>, ghost count: nat): (r: seq<seq<bool>>)
    requires Table(inB, count)
    ensures Table(r, count + 1)
    ensures forall a, b :: 0 <= a <= count && 0 <= b <= count ==>
      r[a][b] == if a < count && b < count then inB[a][b] else false
  {
    seq(|inB|, a requires 0 <= a < |inB| => inB[a] + [false]) + [seq(|inB| + 1, _ => false)]
  }

  lemma GrownAgrees(pairs: seq<CriticalPair>, inB: seq<seq<bool>>, count: nat)
    requires Agrees(pairs, inB, count)
    ensures Agrees(pairs, Grown(inB, count), count + 1)
  {
  }

  /** Queues the pairs of generator `k` with all earlier ones. */
  method QueuePairs(gens: seq<Poly>, pairs0: seq<CriticalPair>, inB0: seq<seq<bool>>, k: nat, n: nat)
    returns (pairs: seq<CriticalPair>, inB: seq<seq<bool>>)
    requires AllCanonical(gens, n) && AllNonZero(gens) && k < |gens|
    requires Agrees(pairs0, inB0, |gens|) && forall i :: 0 <= i < k ==> !Listed(pairs0, i, k)
    ensures Agrees(pairs, inB, |gens|)
    ensures forall i: nat, j: nat :: Listed(pairs, i, j) <==> Listed(pairs0, i, j) || (j == k && i < k)
    ensures |pairs| == |pairs0| + k
  {
    hide Agrees, Listed, Less;
    pairs, inB := pairs0, inB0;
    for i := 0 to k
      invariant Agrees(pairs, inB, |gens|)
      invariant forall a: nat, b: nat :: Listed(pairs, a, b) <==> Listed(pairs0, a, b) || (b == k && a < i)
      invariant |pairs| == |pairs0| + i
    {
      var t := CriticalPair(i, k, Degree(Lcm(gens[i][0].mono, gens[k][0].mono)));
      MarkListed(pairs, inB, |gens|, t);
      ListedAppend(pairs, t);
      AgreesTable(pairs, inB, |gens|);
      inB := Marked(inB, i, k, true, |gens|);
      pairs := pairs + [t];
    }
  }

  lemma AgreesTable(pairs: seq<CriticalPair>, inB: seq<seq<bool>>, count: nat)
    requires Agrees(pairs, inB, count)
    ensures Table(inB, count) && PairsOnce(pairs, count)
    ensures forall i: nat, k: nat :: k >= count ==> !Listed(pairs, i, k)
  {
  }

  /** The number of pairs of n generators. */
  function PairCount(n: nat): nat {
    n * (n - 1) / 2
  }

  lemma OneMoreCount(n: nat)
    ensures PairCount(n + 1) == PairCount(n) + n && PairCount(0) == 0
  {
    assert (n + 1) * n == n * (n - 1) + 2 * n;
  }

  /** All pairs of the initial generators. */
  method InitialPairs(gens: seq<Poly>, n: nat) returns (pairs: seq<CriticalPair>, inB: seq<seq<bool>>)
    requires AllCanonical(gens, n) && AllNonZero(gens)
    ensures Agrees(pairs, inB, |gens|) && ByDegree(pairs)
    ensures forall i: nat, j: nat :: i < j < |gens| ==> Listed(pairs, i, j)
    ensures |pairs| == PairCount(|gens|)
  {
    pairs := [];
    inB := seq(|gens|, _ => seq(|gens|, _ => false));
    for k := 0 to |gens|
      invariant Agrees(pairs, inB, |gens|)
      invariant forall i: nat, j: nat :: Listed(pairs, i, j) <==> i < j < k
      invariant |pairs| == PairCount(k)
    {
      OneMoreCount(k);
      pairs, inB := QueuePairs(gens, pairs, inB, k, n);
    }
    AgreesTable(pairs, inB, |gens|);
    ghost var unsorted := pairs;
    pairs := SortPairs(pairs, |gens|);
    SortedAgrees(unsorted, pairs, inB, |gens|);
    forall i: nat, j: nat | i < j < |gens| ensures Listed(pairs, i, j) { assert Listed(unsorted, i, j); }
  }

  lemma RemainderFactor(c: real, f: Poly, gens: seq<Poly>, r: Poly, n: nat)
    requires Remainder(c, f, gens, r, n)
    ensures c != 0.0
  {
  }

  lemma RemainderInIdeal(c: real, f: Poly, gens: seq<Poly>, r: Poly, n: nat)
    requires Remainder(c, f, gens, r, n) && InIdeal(Of(f), gens, n)
    ensures InIdeal(Of(r), gens, n)
  {
    hide InIdeal, Coeff;
    var neg := (k: Mono) => -1.0 * Difference(c, f, r)(k);
    var cf := (k: Mono) => c * Of(f)(k);
    IdealScale(Difference(c, f, r), neg, gens, n, -1.0);
    IdealScale(Of(f), cf, gens, n, c);
    IdealAdd(cf, neg, Of(r), gens, n);
  }

  /** The generators appended from position `from` on are not reducible at the head by those before them. */
  ghost predicate HeadsReduced(gens: seq<Poly>, from: nat) {
    forall k :: from <= k < |gens| && gens[k] != [] ==> Irreducible(gens[k][0].mono, gens[..k])
  }

  /** Appending a reduced nonzero remainder of an ideal element. */
  lemma AppendRemainder(gens: seq<Poly>, generators: seq<Poly>, r: Poly, n: nat, from: nat)
    requires AllCanonical(gens, n) && AllNonZero(gens) && Canonical(r, n) && r != []
    requires SameIdeal(gens, generators, n) && InIdeal(Of(r), gens, n) && Reduced(r, gens, n)
    requires from <= |gens| && HeadsReduced(gens, from)
    ensures AllCanonical(gens + [r], n) && AllNonZero(gens + [r])
    ensures SameIdeal(gens + [r], generators, n) && HeadsReduced(gens + [r], from)
  {
    hide InIdeal, Irreducible, Coeff;
    AddMember(gens, r, n);
    WithinTransitive(gens + [r], gens, generators, n);
    WithinTransitive(generators, gens, gens + [r], n);
    CoeffAt(r, n, 0);
    var longer: seq<Poly> := gens + [r];
    forall k: nat | from <= k < |longer| && longer[k] != [] ensures Irreducible(longer[k][0].mono, longer[..k]) {
      assert longer[..k] == if k < |gens| then gens[..k] else gens;
    }
  }

  // ----- Pairs that are done -----

  /** Every pair of generators is still on the worklist or cancels below its common multiple. */
  ghost predicate Pending(gens: seq<Poly>, pairs: seq<CriticalPair>, n: nat) {
    forall i: nat, j: nat :: i < j < |gens| ==> Listed(pairs, i, j) || Resolved(gens, n, i, j)
  }

  /** The same, but for one pair that has just been taken. */
  ghost predicate PendingBut(gens: seq<Poly>, pairs: seq<CriticalPair>, n: nat, a: nat, b: nat) {
    forall i: nat, j: nat :: i < j < |gens| ==> Listed(pairs, i, j) || Resolved(gens, n, i, j) || (i == a && j == b)
  }

  lemma TakenPending(gens: seq<Poly>, pairs: seq<CriticalPair>, n: nat)
    requires pairs != [] && Pending(gens, pairs, n)
    ensures PendingBut(gens, pairs[..|pairs| - 1], n, pairs[|pairs| - 1].i, pairs[|pairs| - 1].j)
  {
    hide Resolved;
    var rest, t := pairs[..|pairs| - 1], pairs[|pairs| - 1];
    assert pairs == rest + [t];
    ListedAppend(rest, t);
  }

  lemma PairDone(gens: seq<Poly>, pairs: seq<CriticalPair>, n: nat, a: nat, b: nat)
    requires PendingBut(gens, pairs, n, a, b) && Resolved(gens, n, a, b)
    ensures Pending(gens, pairs, n)
  {
    hide Resolved, Listed;
  }

  /** A pair that is not marked has been treated before. */
  lemma UnmarkedResolved(gens: seq<Poly>, pairs: seq<CriticalPair>, inB: seq<seq<bool>>, n: nat, a: nat, b: nat, i: nat,
                         k: nat)
    requires Agrees(pairs, inB, |gens|) && PendingBut(gens, pairs, n, a, b) && i < |gens| && k < |gens| && i != k
    requires !inB[i][k] && (i != a || k != b) && (i != b || k != a)
    ensures Resolved(gens, n, i, k)
  {
    hide Resolved, Listed;
    if i < k {
      assert Resolved(gens, n, i, k);
    } else {
      assert Resolved(gens, n, k, i);
      Flip(gens, n, k, i);
    }
  }

  /** A third generator whose leading monomial divides the common multiple, with both its pairs treated. */
  ghost predicate CoversPair(gens: seq<Poly>, inB: seq<seq<bool>>, n: nat, i: nat, j: nat, k: nat)
    requires PairOf(gens, n, i, j) && Table(inB, |gens|) && k < |gens|
  {
    k != i && k != j && Divides(gens[k][0].mono, Lcm(gens[i][0].mono, gens[j][0].mono)) && !inB[i][k] && !inB[j][k]
  }

  /** Second criterion: a third generator's leading monomial divides the common multiple and its pairs are done. */
  method CoveredByThird(gens: seq<Poly>, inB: seq<seq<bool>>, i: nat, j: nat, lcm: Mono, n: nat) returns (skip: bool)
    requires PairOf(gens, n, i, j) && Table(inB, |gens|) && lcm == PairLcm(gens, i, j) && |lcm| == n
    ensures skip <==> exists k: nat :: k < |gens| && CoversPair(gens, inB, n, i, j, k)
  {
    skip := false;
    for k := 0 to |gens|
      invariant !skip && forall l: nat :: l < k ==> !CoversPair(gens, inB, n, i, j, l)
    {
      if k != i && k != j && Divides(gens[k][0].mono, lcm) && !inB[i][k] && !inB[j][k] {
        assert CoversPair(gens, inB, n, i, j, k);
        return true;
      }
    }
  }

  /** The second criterion: the pair follows from two pairs that are done. */
  lemma SkipResolved(gens: seq<Poly>, pairs: seq<CriticalPair>, inB: seq<seq<bool>>, n: nat, i: nat, j: nat)
    requires Agrees(pairs, inB, |gens|) && PendingBut(gens, pairs, n, i, j) && PairOf(gens, n, i, j) && i < j
    requires Table(inB, |gens|) && exists k: nat :: k < |gens| && CoversPair(gens, inB, n, i, j, k)
    ensures Resolved(gens, n, i, j)
  {
    hide Resolved, Listed, Divides, Lcm, Agrees, PendingBut;
    var k: nat :| k < |gens| && CoversPair(gens, inB, n, i, j, k);
    UnmarkedResolved(gens, pairs, inB, n, i, j, i, k);
    UnmarkedResolved(gens, pairs, inB, n, i, j, j, k);
    Chain(gens, n, i, j, k);
  }

  lemma CrossIsDifference(gens: seq<Poly>, n: nat, i: nat, j: nat, k: Mono)
    requires PairOf(gens, n, i, j) && |k| == n
    ensures Cross(gens, i, j, PairLcm(gens, i, j))(k) == CrossDifference(gens[i], gens[j], n, k)
  {
    hide Shift, Over, Lcm, By;
    var f, g := gens[i], gens[j];
    var l := PairLcm(gens, i, j);
    ScaledShiftBy(g[0].coeff, 1.0, Over(l, f[0].mono), f, k);
    ScaledShiftBy(f[0].coeff, 1.0, Over(l, g[0].mono), g, k);
    ByConstant(g[0].coeff);
    ByConstant(f[0].coeff);
  }

  /** An S-polynomial that is zero. */
  lemma ZeroResolved(gens: seq<Poly>, n: nat, i: nat, j: nat, c: real)
    requires PairOf(gens, n, i, j) && c != 0.0
    requires forall k: Mono :: |k| == n ==> Coeff([], k) == c * CrossDifference(gens[i], gens[j], n, k)
    ensures Resolved(gens, n, i, j)
  {
    hide CrossDifference, Lcm, Cross;
    LeadLength(gens, n, i);
    LeadLength(gens, n, j);
    forall k: Mono | |k| == n ensures Cross(gens, i, j, PairLcm(gens, i, j))(k) == 0.0 {
      CrossIsDifference(gens, n, i, j, k);
      assert Coeff([], k) == 0.0;
      OtherIsZero(c, CrossDifference(gens[i], gens[j], n, k));
    }
    BelowZero(Cross(gens, i, j, PairLcm(gens, i, j)), gens, n, PairLcm(gens, i, j));
  }

  lemma OtherIsZero(c: real, x: real)
    requires c != 0.0 && c * x == 0.0
    ensures x == 0.0
  {
  }

  /** The S-polynomial is its remainder, up to a factor, and multiples below. */
  lemma DividedBelow(gens: seq<Poly>, n: nat, i: nat, j: nat, sp: Poly, c: real, r: Poly, d: real, more: seq<Poly>)
    requires PairOf(gens, n, i, j) && PairOf(more, n, i, j) && more[i] == gens[i] && more[j] == gens[j]
    requires c != 0.0 && d != 0.0
    requires forall k: Mono :: |k| == n ==> Coeff(sp, k) == c * CrossDifference(gens[i], gens[j], n, k)
    requires var l := PairLcm(gens, i, j); Below(Difference(d, sp, r), more, n, l) && Below(Of(r), more, n, l)
    ensures Resolved(more, n, i, j)
  {
    hide CrossDifference, Lcm, Cross, Coeff, Below;
    LeadLength(gens, n, i);
    LeadLength(gens, n, j);
    var l := PairLcm(gens, i, j);
    LcmLength(Lead(gens, i), Lead(gens, j));
    var scaled := (k: Mono) => d * Coeff(sp, k);
    BelowAdd(Difference(d, sp, r), Of(r), scaled, more, n, l);
    var e := 1.0 / (d * c);
    NonZeroProduct(d, c);
    forall k: Mono | |k| == n ensures Cross(more, i, j, l)(k) == e * scaled(k) {
      CrossIsDifference(more, n, i, j, k);
      UndoFactors(d, c, CrossDifference(gens[i], gens[j], n, k));
    }
    BelowScale(scaled, Cross(more, i, j, l), more, n, l, e);
  }

  lemma UndoFactors(d: real, c: real, x: real)
    requires d * c != 0.0
    ensures (1.0 / (d * c)) * (d * (c * x)) == x
  {
    var q := 1.0 / (d * c);
    assert q * (d * c) == 1.0;
    assert q * (d * (c * x)) == (q * (d * c)) * x;
  }

  /** The remainder is zero. */
  lemma ReducedToZero(gens: seq<Poly>, n: nat, i: nat, j: nat, sp: Poly, c: real, d: real)
    requires PairOf(gens, n, i, j) && c != 0.0 && d != 0.0 && sp != [] && Under(sp, n, PairLcm(gens, i, j))
    requires forall k: Mono :: |k| == n ==> Coeff(sp, k) == c * CrossDifference(gens[i], gens[j], n, k)
    requires StandardRemainder(d, sp, gens, [], n)
    ensures Resolved(gens, n, i, j)
  {
    hide CrossDifference, Lcm, Below, Less, Under;
    var l := PairLcm(gens, i, j);
    LeadLength(gens, n, i);
    LeadLength(gens, n, j);
    LcmLength(Lead(gens, i), Lead(gens, j));
    BelowZero(Of([]), gens, n, l);
    DividedBelow(gens, n, i, j, sp, c, [], d, gens);
  }

  /** The remainder becomes a generator. */
  lemma ReducedToMember(gens: seq<Poly>, n: nat, i: nat, j: nat, sp: Poly, c: real, r: Poly, d: real)
    requires PairOf(gens, n, i, j) && c != 0.0 && d != 0.0 && sp != [] && Under(sp, n, PairLcm(gens, i, j))
    requires forall k: Mono :: |k| == n ==> Coeff(sp, k) == c * CrossDifference(gens[i], gens[j], n, k)
    requires Canonical(r, n) && r != [] && StandardRemainder(d, sp, gens, r, n)
    ensures Resolved(gens + [r], n, i, j)
  {
    hide CrossDifference, Lcm, Below, Less, Coeff, Canonical, Difference, Shift, Cross;
    LeadLength(gens, n, i);
    LeadLength(gens, n, j);
    LcmLength(Lead(gens, i), Lead(gens, j));
    var l, more := PairLcm(gens, i, j), gens + [r];
    assert Under(r, n, l) && Below(Difference(d, sp, r), gens, n, l);
    BelowLonger(Difference(d, sp, r), gens, n, l, r);
    MemberBelow(gens, r, n, l);
    LongerPair(gens, n, i, j, r);
    DividedBelow(gens, n, i, j, sp, c, r, d, more);
  }

  lemma LongerPair(gens: seq<Poly>, n: nat, i: nat, j: nat, r: Poly)
    requires PairOf(gens, n, i, j) && Canonical(r, n) && r != []
    ensures PairOf(gens + [r], n, i, j) && (gens + [r])[i] == gens[i] && (gens + [r])[j] == gens[j]
  {
    hide Canonical;
  }

  /** The new generator itself lies below the bounds of its leading monomial. */
  lemma MemberBelow(gens: seq<Poly>, r: Poly, n: nat, l: Mono)
    requires r != [] && |r[0].mono| == |l| == n && Less(r[0].mono, l)
    ensures Below(Of(r), gens + [r], n, l)
  {
    hide Below, Less, Coeff, Shift;
    TimesOne(r[0].mono);
    assert (gens + [r])[|gens|] == r;
    forall k: Mono | |k| == n ensures Of(r)(k) == Shift(1.0, One(n), r, k) { ShiftOne(1.0, r, n, k); }
    BelowOne(Of(r), gens + [r], n, l, Multiple(1.0, One(n), |gens|));
  }

  lemma ResolvedLonger(gens: seq<Poly>, n: nat, i: nat, j: nat, r: Poly)
    requires Resolved(gens, n, i, j) && Canonical(r, n) && r != []
    ensures Resolved(gens + [r], n, i, j)
  {
    hide Lcm, Below, Less, Coeff, Canonical, Raised;
    var more, l := gens + [r], PairLcm(gens, i, j);
    BelowLonger(Cross(gens, i, j, l), gens, n, l, r);
    forall k: Mono | |k| == n
      ensures Cross(more, i, j, l)(k) == Cross(gens, i, j, l)(k)
    {
      RaisedLonger(gens, i, j, l, k, r);
    }
    BelowEqual(Cross(gens, i, j, l), Cross(more, i, j, l), more, n, l);
  }

  lemma RaisedLonger(gens: seq<Poly>, i: nat, j: nat, l: Mono, k: Mono, r: Poly)
    requires i < |gens| && j < |gens| && gens[i] != [] && gens[j] != [] && |l| == |Lead(gens, i)| == |Lead(gens, j)|
    ensures Raised(gens + [r], i, l, k) == Raised(gens, i, l, k) && Raised(gens + [r], j, l, k) == Raised(gens, j, l, k)
  {
    hide Shift, Over;
  }

  /** A new generator: its pairs are on the worklist, the others stay as they are. */
  lemma PendingLonger(gens: seq<Poly>, pairs: seq<CriticalPair>, n: nat, a: nat, b: nat, r: Poly,
                      next: seq<CriticalPair>)
    requires PendingBut(gens, pairs, n, a, b) && Canonical(r, n) && r != [] && Resolved(gens + [r], n, a, b)
    requires forall i: nat, j: nat :: Listed(next, i, j) <==> Listed(pairs, i, j) || (j == |gens| && i < |gens|)
    ensures Pending(gens + [r], next, n)
  {
    hide Resolved, Listed, Canonical;
    forall i: nat, j: nat | i < j < |gens + [r]| ensures Listed(next, i, j) || Resolved(gens + [r], n, i, j) {
      if j < |gens| && Resolved(gens, n, i, j) { ResolvedLonger(gens, n, i, j, r); }
    }
  }

  lemma SortedPending(gens: seq<Poly>, pairs: seq<CriticalPair>, sorted: seq<CriticalPair>, n: nat)
    requires Pending(gens, pairs, n) && SamePairs(sorted, pairs)
    ensures Pending(gens, sorted, n)
  {
    hide Resolved, Listed;
  }

  lemma AllPending(gens: seq<Poly>, pairs: seq<CriticalPair>, n: nat)
    requires forall i: nat, j: nat :: i < j < |gens| ==> Listed(pairs, i, j)
    ensures Pending(gens, pairs, n)
  {
    hide Resolved, Listed;
  }

  /** When the worklist is empty, Buchberger's criterion holds. */
  lemma NothingPending(gens: seq<Poly>, n: nat)
    requires Pending(gens, [], n) && AllCanonical(gens, n) && AllNonZero(gens)
    ensures GroebnerBasis(gens, n)
  {
    hide Resolved, GroebnerBasis;
    forall i: nat, j: nat | i < j < |gens| ensures Resolved(gens, n, i, j) { assert !Listed([], i, j); }
    Criterion(gens, n);
  }

  /** The loop over critical pairs, up to its reduction step. In every run the ideal stays the same, every appended
      remainder has a leading monomial that no earlier one divides, and the table mirrors the worklist. A run that
      empties the worklist ends with a Groebner basis; any other run stops after exactly a thousand pairs, and all pairs
      that are no longer on the worklist cancel below their common multiples. */
  method Saturate(generators: seq<Poly>, s: Scaling, n: nat)
    returns (gens: seq<Poly>, ghost from: nat, ghost open: seq<CriticalPair>, ghost marks: seq<seq<bool>>)
    requires AllCanonical(generators, n) && NonZeroScaling(s)
    ensures AllCanonical(gens, n) && AllNonZero(gens) && SameIdeal(gens, generators, n)
    ensures from <= |gens| && from <= |generators| && HeadsReduced(gens, from)
    ensures LeadsKept(gens[..from], generators)
    ensures Agrees(open, marks, |gens|)
    ensures open == [] ==> GroebnerBasis(gens, n)
    ensures open == [] || |open| + LIMIT == PairCount(|gens|)
    ensures Pending(gens, open, n)
  {
    hide Pending, PendingBut, Resolved, GroebnerBasis, StandardRemainder, CrossDifference, SamePairs;
    hide InIdeal, Irreducible, Coeff, Divides, Less, Agrees, Listed, HeadsReduced, LeadsKept, SameIdeal, Within;
    hide Reduced, Remainder, ByDegree, PairCount;
    gens := PrimitiveGenerators(generators, s, n);
    from := |gens|;
    ghost var initial := gens;
    NoHeads(gens);
    var pairs, inB := InitialPairs(gens, n);
    AllPending(gens, pairs, n);
    var iters := 0;
    while pairs != [] && iters < LIMIT
      invariant AllCanonical(gens, n) && AllNonZero(gens) && SameIdeal(gens, generators, n)
      invariant from <= |gens| && HeadsReduced(gens, from) && gens[..from] == initial
      invariant Agrees(pairs, inB, |gens|) && Pending(gens, pairs, n) && 0 <= iters <= LIMIT
      invariant iters + |pairs| == PairCount(|gens|)
      decreases LIMIT - iters
    {
      iters := iters + 1;
      TakenPending(gens, pairs, n);
      MarkTaken(pairs, inB, |gens|);
      AgreesTable(pairs, inB, |gens|);
      var pair := pairs[|pairs| - 1];
      pairs := pairs[..|pairs| - 1];
      inB := Marked(inB, pair.i, pair.j, false, |gens|);
      var f, g := gens[pair.i], gens[pair.j];
      var prime := RelativelyPrime(f[0].mono, g[0].mono);
      if prime {
        CoprimeResolved(gens, n, pair.i, pair.j);
        PairDone(gens, pairs, n, pair.i, pair.j);
        continue;
      }
      AgreesTable(pairs, inB, |gens|);
      var skip := CoveredByThird(gens, inB, pair.i, pair.j, Lcm(f[0].mono, g[0].mono), n);
      if skip {
        SkipResolved(gens, pairs, inB, n, pair.i, pair.j);
        PairDone(gens, pairs, n, pair.i, pair.j);
        continue;
      }
      var sp; ghost var e;
      sp, e := SPolynomial(f, g, s, n);
      if sp == [] {
        ZeroResolved(gens, n, pair.i, pair.j, e);
        PairDone(gens, pairs, n, pair.i, pair.j);
        continue;
      }
      assert f in gens && g in gens;
      var r; ghost var c;
      r, c := Divide(sp, gens, s, n);
      RemainderFactor(c, sp, gens, r, n);
      if r != [] {
        RemainderInIdeal(c, sp, gens, r, n);
        ReducedToMember(gens, n, pair.i, pair.j, sp, e, r, c);
        ghost var fewer, rest := gens, pairs;
        AppendRemainder(gens, generators, r, n, from);
        GrownAgrees(pairs, inB, |gens|);
        AgreesTable(pairs, inB, |gens|);
        inB := Grown(inB, |gens|);
        OneMoreCount(|gens|);
        gens := gens + [r];
        pairs, inB := QueuePairs(gens, pairs, inB, |gens| - 1, n);
        PendingLonger(fewer, rest, n, pair.i, pair.j, r, pairs);
        AgreesTable(pairs, inB, |gens|);
        ghost var unsorted := pairs;
        pairs := SortPairs(pairs, |gens|);
        SortedAgrees(unsorted, pairs, inB, |gens|);
        SortedPending(gens, unsorted, pairs, n);
      } else {
        ReducedToZero(gens, n, pair.i, pair.j, sp, e, c);
        PairDone(gens, pairs, n, pair.i, pair.j);
      }
    }
    if pairs == [] { NothingPending(gens, n); }
    open, marks := pairs, inB;
  }

  lemma NoHeads(gens: seq<Poly>)
    ensures HeadsReduced(gens, |gens|)
  {
  }
}
