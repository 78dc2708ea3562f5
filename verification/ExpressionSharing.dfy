/** When merging equal expressions keeps the meaning: captured variables decide
 * (src/compiler/IROptimizer.cpp:103-157). */
module ExpressionSharing {
  import opened OptimizerGraph
  import opened Optimizer
  import opened OptimizerMeaning

  /** The assignment fits the graph with the variables that closures of this graph capture. */
  ghost predicate Fits<V>(eval: Evaluator<V>, nodes: seq<Node<V>>, s: int -> V) {
    Consistent(eval, nodes, CapturedSet(nodes), s)
  }

  ghost predicate NothingNew<V(!new)>(eval: Evaluator<V>, before: seq<Node<V>>, after: seq<Node<V>>) {
    forall s :: Fits(eval, after, s) ==> exists t :: Fits(eval, before, t) && Matches(before, after, t, s)
  }

  ghost predicate NothingLost<V(!new)>(eval: Evaluator<V>, before: seq<Node<V>>, after: seq<Node<V>>) {
    forall t :: Fits(eval, before, t) ==> exists s :: Fits(eval, after, s) && Matches(before, after, t, s)
  }

  /** For every meaning of the operators, what is left can see the same values in both graphs. */
  ghost predicate SameMeaning<V(!new)>(before: seq<Node<V>>, after: seq<Node<V>>) {
    forall eval: Evaluator<V> :: NothingNew(eval, before, after) && NothingLost(eval, before, after)
  }

  /** Another node reads `n`. */
  predicate ReadElsewhere<V>(nodes: seq<Node<V>>, n: nat) {
    exists m :: 0 <= m < |nodes| && m != n && !nodes[m].op.Nop? && n in nodes[m].inputs
  }

  /** What a caller can check before merging `n` into `to`: `n` is no variable, and if `to` is one, nothing reads
   * `n`. */
  predicate Mergeable<V>(nodes: seq<Node<V>>, n: nat, to: int) {
    n !in CapturedSet(nodes) && (to in CapturedSet(nodes) ==> !ReadElsewhere(nodes, n))
  }

  // ----- What merging does to captured variables -----

  lemma CapturedAfter<V>(nodes: seq<Node<V>>, n: nat, to: nat, m: nat, r: int)
    requires to < n < |nodes| && SameExpression(nodes, to, n) && m < |nodes| && 0 <= r < |nodes|
    ensures var after := Forwarded(nodes, n, to);
      CapturedBy(after[m], r) <==> (r != n && (CapturedBy(nodes[m], r) || (r == to && CapturedBy(nodes[m], n))))
  {
    var after := Forwarded(nodes, n, to);
    if m != n {
      assert after[m] == Rewired(nodes[m], n, to);
      SubstMember(nodes[m].inputs, n, to, r);
    }
  }

  lemma SubstMember(refs: seq<int>, n: int, to: int, r: int)
    requires to != n
    ensures r in SubstAll(refs, n, to) <==> r != n && (r in refs || (r == to && n in refs))
  {
    var after := SubstAll(refs, n, to);
    if r != n && r in refs {
      var i :| 0 <= i < |refs| && refs[i] == r;
      assert after[i] == r;
    }
    if r == to && n in refs {
      var i :| 0 <= i < |refs| && refs[i] == n;
      assert after[i] == r;
    }
  }

  lemma CapturedMoves<V>(nodes: seq<Node<V>>, n: nat, to: nat, r: int)
    requires to < n < |nodes| && SameExpression(nodes, to, n)
    ensures r in CapturedSet(Forwarded(nodes, n, to)) <==>
      r != n && (r in CapturedSet(nodes) || (r == to && n in CapturedSet(nodes)))
  {
    hide CapturedBy, Forwarded, SameExpression;
    var after := Forwarded(nodes, n, to);
    if 0 <= r < |nodes| {
      forall m: nat | m < |nodes|
        ensures CapturedBy(after[m], r) <==>
          (r != n && (CapturedBy(nodes[m], r) || (r == to && CapturedBy(nodes[m], n))))
      {
        CapturedAfter(nodes, n, to, m, r);
      }
    }
  }

  /** Without captured reads of `n` the variables stay the same. */
  lemma CapturedStay<V>(nodes: seq<Node<V>>, n: nat, to: nat)
    requires to < n < |nodes| && SameExpression(nodes, to, n) && n !in CapturedSet(nodes)
    ensures CapturedSet(Forwarded(nodes, n, to)) == CapturedSet(nodes)
  {
    hide CapturedSet;
    forall r
      ensures r in CapturedSet(Forwarded(nodes, n, to)) <==> r in CapturedSet(nodes)
    {
      CapturedMoves(nodes, n, to, r);
    }
  }

  lemma CapturedIsRead<V>(nodes: seq<Node<V>>, n: nat)
    requires n < |nodes| && nodes[n].op.Pure? && n in CapturedSet(nodes)
    ensures ReadElsewhere(nodes, n)
  {
    var m :| 0 <= m < |nodes| && CapturedBy(nodes[m], n);
    assert n in nodes[m].inputs;
  }

  // ----- Merging keeps the meaning -----

  /** The values of `n` and of its substitute agree wherever anything reads `n`. */
  ghost predicate Alike<V>(nodes: seq<Node<V>>, n: nat, to: nat, t: int -> V) {
    ReadElsewhere(nodes, n) ==> t(n) == t(to)
  }

  /** Operands are the same on both sides of the merge. */
  lemma OperandsAlike<V>(nodes: seq<Node<V>>, n: nat, to: nat, t: int -> V, s: int -> V, m: nat)
    requires to < n < |nodes| && m < |nodes| && m != n && Alike(nodes, n, to, t) && !nodes[m].op.Nop?
    requires forall k :: k != n ==> t(k) == s(k)
    ensures Values(t, nodes[m].inputs) == Values(s, Forwarded(nodes, n, to)[m].inputs)
  {
    var refs, after := nodes[m].inputs, Forwarded(nodes, n, to)[m].inputs;
    forall i | 0 <= i < |refs| ensures t(refs[i]) == s(after[i]) {
      if refs[i] == n { assert n in refs && ReadElsewhere(nodes, n); }
    }
  }

  lemma CountsAlike<V>(nodes: seq<Node<V>>, n: nat, to: nat, m: nat, i: nat)
    requires to < n < |nodes| && SameExpression(nodes, to, n) && m < |nodes| && m != n && nodes[m].op.Phi?
    requires i < |nodes[m].inputs|
    ensures Counts(Forwarded(nodes, n, to), m, i) <==> Counts(nodes, m, i)
  {
    var after := Forwarded(nodes, n, to);
    assert after[m] == Rewired(nodes[m], n, to);
    var c := nodes[m].control;
    if 0 <= c < |nodes| && c != n { assert after[c] == Rewired(nodes[c], n, to); }
  }

  /** What is left holds before exactly when it holds after the merge. */
  lemma HoldsAlike<V>(eval: Evaluator<V>, nodes: seq<Node<V>>, captured: set<int>, n: nat, to: nat, t: int -> V,
                      s: int -> V, m: nat)
    requires to < n < |nodes| && SameExpression(nodes, to, n) && m < |nodes| && m != n && Alike(nodes, n, to, t)
    requires forall k :: k != n ==> t(k) == s(k)
    ensures NodeHolds(eval, nodes, captured, t, m) <==> NodeHolds(eval, Forwarded(nodes, n, to), captured, s, m)
  {
    var after := Forwarded(nodes, n, to);
    assert after[m] == Rewired(nodes[m], n, to);
    if nodes[m].op.Nop? { return; }
    OperandsAlike(nodes, n, to, t, s, m);
    if nodes[m].op.Effect? {
      assert AllFree(nodes, captured, nodes[m].inputs) <==> AllFree(after, captured, after[m].inputs) by {
        FreeAlike(nodes, captured, n, to, nodes[m].inputs);
      }
    }
    if nodes[m].op.Phi? {
      forall i | 0 <= i < |nodes[m].inputs|
        ensures (Counts(after, m, i) <==> Counts(nodes, m, i)) && t(nodes[m].inputs[i]) == s(after[m].inputs[i])
      {
        CountsAlike(nodes, n, to, m, i);
        assert Values(t, nodes[m].inputs)[i] == Values(s, after[m].inputs)[i];
      }
    }
  }

  /** A node with free constants only reads neither of the two expressions. */
  lemma FreeAlike<V>(nodes: seq<Node<V>>, captured: set<int>, n: nat, to: nat, refs: seq<int>)
    requires to < n < |nodes| && SameExpression(nodes, to, n)
    ensures AllFree(nodes, captured, refs) <==> AllFree(Forwarded(nodes, n, to), captured, SubstAll(refs, n, to))
  {
    var after, moved := Forwarded(nodes, n, to), SubstAll(refs, n, to);
    forall i | 0 <= i < |refs|
      ensures FreeConstant(nodes, captured, refs[i]) <==> FreeConstant(after, captured, moved[i])
    {

    }
    if AllFree(after, captured, moved) {
      forall i | 0 <= i < |refs|
        ensures FreeConstant(nodes, captured, refs[i])
      {
        assert FreeConstant(after, captured, moved[i]);
      }
    }
  }

  /** The value that the removed node had. */
  function Recomputed<V>(eval: Evaluator<V>, nodes: seq<Node<V>>, n: nat, to: nat, s: int -> V): V
    requires n < |nodes|
  {
    if to in CapturedSet(nodes) then eval(nodes[n].op, nodes[n].payload, Values(s, nodes[n].inputs)) else s(to)
  }

  lemma MergeBackward<V(!new)>(eval: Evaluator<V>, nodes: seq<Node<V>>, n: nat, to: nat, s: int -> V)
    returns (t: int -> V)
    requires to < n < |nodes| && SameExpression(nodes, to, n) && Mergeable(nodes, n, to)
    requires Fits(eval, Forwarded(nodes, n, to), s)
    ensures Fits(eval, nodes, t) && Matches(nodes, Forwarded(nodes, n, to), t, s)
  {
    var after, captured, value := Forwarded(nodes, n, to), CapturedSet(nodes), Recomputed(eval, nodes, n, to, s);
    t := m => if m == n then value else s(m);
    CapturedStay(nodes, n, to);
    forall m: nat | m < |nodes| ensures NodeHolds(eval, nodes, captured, t, m) {
      if m == n {
        RemovedHolds(eval, nodes, n, to, s, t);
      } else {
        hide CapturedSet, Mergeable;
        assert NodeHolds(eval, after, captured, s, m);
        HoldsAlike(eval, nodes, captured, n, to, t, s, m);
      }
    }
    MatchesAlike(nodes, n, to, t, s);
  }

  lemma MatchesAlike<V>(nodes: seq<Node<V>>, n: nat, to: nat, t: int -> V, s: int -> V)
    requires to < n < |nodes| && Alike(nodes, n, to, t) && forall k :: k != n ==> t(k) == s(k)
    ensures Matches(nodes, Forwarded(nodes, n, to), t, s)
  {
    hide Alike;
    var after := Forwarded(nodes, n, to);
    forall m: nat | m < |after| && !after[m].op.Nop?
      ensures t(m) == s(m) && Values(t, nodes[m].inputs) == Values(s, after[m].inputs)
    {
      OperandsAlike(nodes, n, to, t, s, m);
    }
  }

  lemma RemovedHolds<V(!new)>(eval: Evaluator<V>, nodes: seq<Node<V>>, n: nat, to: nat, s: int -> V, t: int -> V)
    requires to < n < |nodes| && SameExpression(nodes, to, n) && Mergeable(nodes, n, to)
    requires Consistent(eval, Forwarded(nodes, n, to), CapturedSet(nodes), s)
    requires forall m :: t(m) == if m == n then Recomputed(eval, nodes, n, to, s) else s(m)
    ensures NodeHolds(eval, nodes, CapturedSet(nodes), t, n)
  {
    hide CapturedSet;
    var after, inputs := Forwarded(nodes, n, to), nodes[n].inputs;
    if to in CapturedSet(nodes) {
      assert n in nodes[to].inputs ==> ReadElsewhere(nodes, n);
      assert Values(t, inputs) == Values(s, inputs);
    } else {
      assert NodeHolds(eval, after, CapturedSet(nodes), s, to);
      assert after[to] == Rewired(nodes[to], n, to);
      assert Values(t, inputs) == Values(s, after[to].inputs);
    }
  }

  lemma MergeForward<V(!new)>(eval: Evaluator<V>, nodes: seq<Node<V>>, n: nat, to: nat, t: int -> V)
    requires to < n < |nodes| && SameExpression(nodes, to, n) && Mergeable(nodes, n, to) && Fits(eval, nodes, t)
    ensures Fits(eval, Forwarded(nodes, n, to), t) && Matches(nodes, Forwarded(nodes, n, to), t, t)
  {
    var after, captured := Forwarded(nodes, n, to), CapturedSet(nodes);
    CapturedStay(nodes, n, to);
    assert Alike(nodes, n, to, t) by {
      assert NodeHolds(eval, nodes, captured, t, n) && NodeHolds(eval, nodes, captured, t, to);
    }
    hide CapturedSet, Mergeable, Alike;
    forall m: nat | m < |nodes| ensures NodeHolds(eval, after, captured, t, m) {
      if m != n {
        assert NodeHolds(eval, nodes, captured, t, m);
        HoldsAlike(eval, nodes, captured, n, to, t, t, m);
      }
    }
    MatchesAlike(nodes, n, to, t, t);
  }

  lemma MergeKeeps<V(!new)>(nodes: seq<Node<V>>, n: nat, to: nat)
    requires to < n < |nodes| && SameExpression(nodes, to, n) && Mergeable(nodes, n, to)
    ensures SameMeaning(nodes, Forwarded(nodes, n, to))
  {
    hide *;
    var after := Forwarded(nodes, n, to);
    forall eval: Evaluator<V> ensures NothingNew(eval, nodes, after) && NothingLost(eval, nodes, after) {
      NewFromEach(eval, nodes, n, to);
      LostFromEach(eval, nodes, n, to);
    }
    SameFromEach(nodes, after);
  }

  lemma SameFromEach<V(!new)>(before: seq<Node<V>>, after: seq<Node<V>>)
    requires forall eval: Evaluator<V> :: NothingNew(eval, before, after) && NothingLost(eval, before, after)
    ensures SameMeaning(before, after)
  {
  }

  lemma NewFromEach<V(!new)>(eval: Evaluator<V>, nodes: seq<Node<V>>, n: nat, to: nat)
    requires to < n < |nodes| && SameExpression(nodes, to, n) && Mergeable(nodes, n, to)
    ensures NothingNew(eval, nodes, Forwarded(nodes, n, to))
  {
    hide Fits, Matches, Mergeable, SameExpression, Forwarded;
    var after := Forwarded(nodes, n, to);
    forall s | Fits(eval, after, s) ensures exists t :: Fits(eval, nodes, t) && Matches(nodes, after, t, s) {
      var t := MergeBackward(eval, nodes, n, to, s);
    }
  }

  lemma LostFromEach<V(!new)>(eval: Evaluator<V>, nodes: seq<Node<V>>, n: nat, to: nat)
    requires to < n < |nodes| && SameExpression(nodes, to, n) && Mergeable(nodes, n, to)
    ensures NothingLost(eval, nodes, Forwarded(nodes, n, to))
  {
    hide Fits, Matches, Mergeable, SameExpression, Forwarded;
    var after := Forwarded(nodes, n, to);
    forall t | Fits(eval, nodes, t) ensures exists s :: Fits(eval, after, s) && Matches(nodes, after, t, s) {
      MergeForward(eval, nodes, n, to, t);
    }
  }

  // ----- Assignments that tell a variable from an expression -----

  /** A Phi that some counting input binds. */
  ghost predicate Bound<V>(nodes: seq<Node<V>>, captured: set<int>, p: int) {
    && 0 <= p < |nodes| && nodes[p].op.Phi? && p !in captured
    && exists i :: 0 <= i < |nodes[p].inputs| && Counts(nodes, p, i)
  }

  /** Every bound Phi outside `open` has the value of a counting input outside `open`. */
  ghost predicate Settled<V>(nodes: seq<Node<V>>, captured: set<int>, open: set<int>, s: int -> V) {
    forall p :: Bound(nodes, captured, p) && p !in open ==> SettledAt(nodes, open, s, p)
  }

  ghost predicate SettledAt<V>(nodes: seq<Node<V>>, open: set<int>, s: int -> V, p: int)
    requires 0 <= p < |nodes|
  {
    exists i :: Chosen(nodes, open, s, p, i)
  }

  ghost predicate Chosen<V>(nodes: seq<Node<V>>, open: set<int>, s: int -> V, p: int, i: int)
    requires 0 <= p < |nodes|
  {
    0 <= i < |nodes[p].inputs| && Counts(nodes, p, i) && nodes[p].inputs[i] !in open && s(p) == s(nodes[p].inputs[i])
  }

  /** Phis can always be given values: take over settled ones, and give the rest one value. */
  lemma {:induction false} SettleAll<V>(nodes: seq<Node<V>>, captured: set<int>, open: set<int>, s: int -> V, rest: V)
    returns (t: int -> V)
    requires Settled(nodes, captured, open, s) && forall p :: p in open ==> Bound(nodes, captured, p)
    ensures Settled(nodes, captured, {}, t) && forall m :: m !in open ==> t(m) == s(m)
    decreases |open|
  {
    hide Counts;
    if p, i :| p in open && 0 <= i < |nodes[p].inputs| && Counts(nodes, p, i) && nodes[p].inputs[i] !in open {
      var r := nodes[p].inputs[i];
      var u := m => if m == p then s(r) else s(m);
      assert Chosen(nodes, open - {p}, u, p, i);
      forall q | Bound(nodes, captured, q) && q !in open - {p} ensures SettledAt(nodes, open - {p}, u, q) {
        if q != p {
          var j :| Chosen(nodes, open, s, q, j);
          assert Chosen(nodes, open - {p}, u, q, j);
        }
      }
      t := SettleAll(nodes, captured, open - {p}, u, rest);
    } else {
      t := m => if m in open then rest else s(m);
      forall q | Bound(nodes, captured, q) ensures SettledAt(nodes, {}, t, q) {
        if q in open {
          var j :| 0 <= j < |nodes[q].inputs| && Counts(nodes, q, j);
          assert Chosen(nodes, {}, t, q, j);
        } else {
          var j :| Chosen(nodes, open, s, q, j);
          assert Chosen(nodes, {}, t, q, j);
        }
      }
    }
  }

  /** The operators of a language in which everything computes `v`. */
  function Constantly<V>(v: V): Evaluator<V> {
    (op, payload, vs) => v
  }

  /** An assignment in which the variable `r` has another value than the expressions. */
  lemma TellApart<V(!new)>(nodes: seq<Node<V>>, r: nat, v: V, w: V) returns (s: int -> V)
    requires r < |nodes| && nodes[r].op.Pure? && r in CapturedSet(nodes)
    ensures Fits(Constantly(v), nodes, s) && s(r) == w
    ensures forall m: nat :: m < |nodes| && nodes[m].op.Pure? && m != r ==> s(m) == v
  {
    var captured := CapturedSet(nodes);
    var open := set p | 0 <= p < |nodes| && Bound(nodes, captured, p);
    var start := (m: int) => if m == r then w else if FreeConstant(nodes, captured, m) then nodes[m].value else v;
    assert Settled(nodes, captured, open, start);
    s := SettleAll(nodes, captured, open, start, v);
    hide CapturedSet, Counts;
    forall m: nat | m < |nodes| ensures NodeHolds(Constantly(v), nodes, captured, s, m) {
      if Bound(nodes, captured, m) {
        var i :| Chosen(nodes, {}, s, m, i);
      } else {
        assert s(m) == start(m);
      }
    }
  }

  // ----- Merging in all other cases -----

  /** If `n` is a variable and `to` is not, `to` becomes one. */
  lemma VariableMade<V(!new)>(nodes: seq<Node<V>>, n: nat, to: nat, v: V, w: V)
    requires to < n < |nodes| && SameExpression(nodes, to, n) && v != w
    requires n in CapturedSet(nodes) && to !in CapturedSet(nodes)
    ensures !NothingNew(Constantly(v), nodes, Forwarded(nodes, n, to))
  {
    var after := Forwarded(nodes, n, to);
    CapturedMoves(nodes, n, to, to);
    assert after[to] == Rewired(nodes[to], n, to);
    var s := TellApart(after, to, v, w);
    forall t | Fits(Constantly(v), nodes, t) ensures !Matches(nodes, after, t, s) {
      assert NodeHolds(Constantly(v), nodes, CapturedSet(nodes), t, to);
    }
  }

  /** If `to` is a variable, whoever reads `n` now reads it. */
  lemma VariableRead<V(!new)>(nodes: seq<Node<V>>, n: nat, to: nat, v: V, w: V)
    requires to < n < |nodes| && SameExpression(nodes, to, n) && v != w
    requires to in CapturedSet(nodes) && ReadElsewhere(nodes, n)
    ensures !NothingLost(Constantly(v), nodes, Forwarded(nodes, n, to))
  {
    var after := Forwarded(nodes, n, to);
    var m :| 0 <= m < |nodes| && m != n && !nodes[m].op.Nop? && n in nodes[m].inputs;
    assert after[m] == Rewired(nodes[m], n, to) && after[to] == Rewired(nodes[to], n, to);
    var i :| 0 <= i < |nodes[m].inputs| && nodes[m].inputs[i] == n;
    var t := TellApart(nodes, to, v, w);
    forall s | Fits(Constantly(v), after, s) ensures !Matches(nodes, after, t, s) {
      assert Values(t, nodes[m].inputs)[i] == v && Values(s, after[m].inputs)[i] == s(to);
    }
  }

  /**
   * Merging an expression into an equal one keeps the meaning exactly when the merged node is no captured variable
   * and, if its substitute is one, no other node reads the merged node. Captured variables may change at any time.
   */
  lemma MergeExactly<V(!new)>(nodes: seq<Node<V>>, n: nat, to: nat, v: V, w: V)
    requires to < n < |nodes| && SameExpression(nodes, to, n) && v != w
    ensures SameMeaning(nodes, Forwarded(nodes, n, to)) <==> Mergeable(nodes, n, to)
  {
    hide Fits, Matches, Forwarded, CapturedSet, NothingNew, NothingLost;
    if Mergeable(nodes, n, to) {
      MergeKeeps(nodes, n, to);
    } else if to in CapturedSet(nodes) {
      if n in CapturedSet(nodes) { CapturedIsRead(nodes, n); }
      VariableRead(nodes, n, to, v, w);
    } else {
      VariableMade(nodes, n, to, v, w);
    }
  }

  // ----- Whole passes -----

  /** What is left is what it was. */
  ghost predicate Thinned<V>(before: seq<Node<V>>, after: seq<Node<V>>) {
    |after| == |before| && forall m :: 0 <= m < |before| ==> after[m].op == before[m].op || after[m].op.Nop?
  }

  lemma MatchesBetween<V>(a: seq<Node<V>>, b: seq<Node<V>>, c: seq<Node<V>>, t: int -> V, u: int -> V, s: int -> V)
    requires Thinned(a, b) && Thinned(b, c) && Matches(a, b, t, u) && Matches(a, c, t, s)
    ensures Matches(b, c, u, s)
  {
    hide Values;
  }

  lemma NewThrough<V(!new)>(eval: Evaluator<V>, a: seq<Node<V>>, b: seq<Node<V>>, c: seq<Node<V>>)
    requires OpsFall(a, b) && OpsFall(b, c) && NothingNew(eval, a, b) && NothingNew(eval, b, c)
    ensures NothingNew(eval, a, c)
  {
    hide Fits, Matches, OpsFall;
    forall s | Fits(eval, c, s) ensures exists t :: Fits(eval, a, t) && Matches(a, c, t, s) {
      var u :| Fits(eval, b, u) && Matches(b, c, u, s);
      var t :| Fits(eval, a, t) && Matches(a, b, t, u);
      MatchesThrough(a, b, c, t, u, s);
    }
  }

  lemma LostThrough<V(!new)>(eval: Evaluator<V>, a: seq<Node<V>>, b: seq<Node<V>>, c: seq<Node<V>>)
    requires OpsFall(a, b) && OpsFall(b, c) && NothingLost(eval, a, b) && NothingLost(eval, b, c)
    ensures NothingLost(eval, a, c)
  {
    hide Fits, Matches, OpsFall;
    forall t | Fits(eval, a, t) ensures exists s :: Fits(eval, c, s) && Matches(a, c, t, s) {
      var u :| Fits(eval, b, u) && Matches(a, b, t, u);
      var s :| Fits(eval, c, s) && Matches(b, c, u, s);
      MatchesThrough(a, b, c, t, u, s);
    }
  }

  lemma NewBetween<V(!new)>(eval: Evaluator<V>, a: seq<Node<V>>, b: seq<Node<V>>, c: seq<Node<V>>)
    requires Thinned(a, b) && Thinned(b, c) && NothingLost(eval, a, b) && NothingNew(eval, a, c)
    ensures NothingNew(eval, b, c)
  {
    hide Fits, Matches, Thinned;
    forall s | Fits(eval, c, s) ensures exists u :: Fits(eval, b, u) && Matches(b, c, u, s) {
      var t :| Fits(eval, a, t) && Matches(a, c, t, s);
      var u :| Fits(eval, b, u) && Matches(a, b, t, u);
      MatchesBetween(a, b, c, t, u, s);
    }
  }

  lemma LostBetween<V(!new)>(eval: Evaluator<V>, a: seq<Node<V>>, b: seq<Node<V>>, c: seq<Node<V>>)
    requires Thinned(a, b) && Thinned(b, c) && NothingNew(eval, a, b) && NothingLost(eval, a, c)
    ensures NothingLost(eval, b, c)
  {
    hide Fits, Matches, Thinned;
    forall u | Fits(eval, b, u) ensures exists s :: Fits(eval, c, s) && Matches(b, c, u, s) {
      var t :| Fits(eval, a, t) && Matches(a, b, t, u);
      var s :| Fits(eval, c, s) && Matches(a, c, t, s);
      MatchesBetween(a, b, c, t, u, s);
    }
  }

  lemma MeansBoth<V(!new)>(eval: Evaluator<V>, before: seq<Node<V>>, after: seq<Node<V>>)
    requires SameMeaning(before, after)
    ensures NothingNew(eval, before, after) && NothingLost(eval, before, after)
  {
    hide NothingNew, NothingLost;
  }

  lemma MeaningThrough<V(!new)>(a: seq<Node<V>>, b: seq<Node<V>>, c: seq<Node<V>>)
    requires Thinned(a, b) && Thinned(b, c) && SameMeaning(a, b) && SameMeaning(b, c)
    ensures SameMeaning(a, c)
  {
    hide *;
    ThinnedFalls(a, b);
    ThinnedFalls(b, c);
    forall eval: Evaluator<V> ensures NothingNew(eval, a, c) && NothingLost(eval, a, c) {
      MeansBoth(eval, a, b);
      MeansBoth(eval, b, c);
      NewThrough(eval, a, b, c);
      LostThrough(eval, a, b, c);
    }
    SameFromEach(a, c);
  }

  /** Two graphs that mean the same as a third mean the same. */
  lemma MeaningBetween<V(!new)>(a: seq<Node<V>>, b: seq<Node<V>>, c: seq<Node<V>>)
    requires Thinned(a, b) && Thinned(b, c) && SameMeaning(a, b) && SameMeaning(a, c)
    ensures SameMeaning(b, c)
  {
    hide *;
    forall eval: Evaluator<V> ensures NothingNew(eval, b, c) && NothingLost(eval, b, c) {
      MeansBoth(eval, a, b);
      MeansBoth(eval, a, c);
      NewBetween(eval, a, b, c);
      LostBetween(eval, a, b, c);
    }
    SameFromEach(b, c);
  }

  lemma ThinnedFalls<V>(before: seq<Node<V>>, after: seq<Node<V>>)
    requires Thinned(before, after)
    ensures OpsFall(before, after)
  {
  }

  lemma MeaningReflexive<V(!new)>(nodes: seq<Node<V>>)
    ensures SameMeaning(nodes, nodes)
  {
    hide Fits;
    forall eval: Evaluator<V> ensures NothingNew(eval, nodes, nodes) && NothingLost(eval, nodes, nodes) {
      forall s | Fits(eval, nodes, s) ensures exists t :: Fits(eval, nodes, t) && Matches(nodes, nodes, t, s) {
        assert Matches(nodes, nodes, s, s);
      }
      forall t | Fits(eval, nodes, t) ensures exists s :: Fits(eval, nodes, s) && Matches(nodes, nodes, t, s) {
        assert Matches(nodes, nodes, t, t);
      }
    }
  }

  /** After every step the graph still means what it meant before the pass. */
  ghost predicate StagesKeep<V(!new)>(before: seq<Node<V>>, steps: seq<Rewrite<V>>) {
    forall k :: 0 <= k <= |steps| ==> SameMeaning(before, Outcome(before, steps[..k]))
  }

  ghost predicate MergeableSteps<V>(before: seq<Node<V>>, steps: seq<Rewrite<V>>) {
    forall k :: 0 <= k < |steps| ==>
      steps[k].Forward? && Mergeable(Outcome(before, steps[..k]), steps[k].n, steps[k].to)
  }

  lemma PrefixOf<T>(steps: seq<T>, k: nat)
    requires steps != [] && k <= |steps| - 1
    ensures steps[..|steps| - 1][..k] == steps[..k]
  {
  }

  lemma StagesSplit<V(!new)>(before: seq<Node<V>>, steps: seq<Rewrite<V>>)
    requires steps != []
    ensures StagesKeep(before, steps) <==>
      StagesKeep(before, steps[..|steps| - 1]) && SameMeaning(before, Outcome(before, steps))
  {
    hide SameMeaning, Outcome;
    var front := steps[..|steps| - 1];
    forall k | 0 <= k <= |front| ensures front[..k] == steps[..k] { PrefixOf(steps, k); }
    assert steps[..|steps|] == steps;
  }

  lemma MergeableSplit<V>(before: seq<Node<V>>, steps: seq<Rewrite<V>>)
    requires steps != []
    ensures var front, last := steps[..|steps| - 1], steps[|steps| - 1];
      MergeableSteps(before, steps) <==>
        MergeableSteps(before, front) && last.Forward? && Mergeable(Outcome(before, front), last.n, last.to)
  {
    hide Mergeable, Outcome;
    var front := steps[..|steps| - 1];
    forall k | 0 <= k < |front| ensures front[..k] == steps[..k] { PrefixOf(steps, k); }
    assert steps[..|front|] == front;
  }

  lemma ForwardThins<V>(nodes: seq<Node<V>>, n: nat, to: int)
    ensures Thinned(nodes, Forwarded(nodes, n, to))
  {
  }

  lemma {:induction false} OutcomeThins<V>(lang: Language<V>, noted: set<int>, before: seq<Node<V>>,
                                           steps: seq<Rewrite<V>>)
    requires Derived(SharingExpressions, lang, noted, before, steps, Outcome(before, steps))
    ensures Thinned(before, Outcome(before, steps))
  {
    hide Justified, Forwarded;
    if steps != [] {
      DerivedFront(SharingExpressions, lang, noted, before, steps);
      OutcomeThins(lang, noted, before, steps[..|steps| - 1]);
      StepIsMerge(lang, noted, Outcome(before, steps[..|steps| - 1]), steps[|steps| - 1]);
      ForwardThins(Outcome(before, steps[..|steps| - 1]), steps[|steps| - 1].n, steps[|steps| - 1].to);
    }
  }

  lemma StepIsMerge<V>(lang: Language<V>, noted: set<int>, nodes: seq<Node<V>>, r: Rewrite<V>)
    requires Justified(SharingExpressions, lang, noted, nodes, r)
    ensures r.Forward? && 0 <= r.to < r.n < |nodes| && SameExpression(nodes, r.to, r.n)
    ensures Rewritten(nodes, r) == Forwarded(nodes, r.n, r.to)
  {
  }

  /** The pass keeps the meaning throughout exactly when every merge in it may be done. */
  lemma {:induction false} StagesExactly<V(!new)>(lang: Language<V>, noted: set<int>, before: seq<Node<V>>,
                                           steps: seq<Rewrite<V>>, v: V, w: V)
    requires Derived(SharingExpressions, lang, noted, before, steps, Outcome(before, steps)) && v != w
    ensures StagesKeep(before, steps) <==> MergeableSteps(before, steps)
  {
    hide SameMeaning, Justified, Forwarded, Thinned, Mergeable, StagesKeep, MergeableSteps, SameExpression;
    if steps == [] {
      NoSteps(before, steps);
    } else {
      var front, last := steps[..|steps| - 1], steps[|steps| - 1];
      var middle, after := Outcome(before, front), Outcome(before, steps);
      DerivedFront(SharingExpressions, lang, noted, before, steps);
      StagesExactly(lang, noted, before, front, v, w);
      StagesSplit(before, steps);
      MergeableSplit(before, steps);
      StepIsMerge(lang, noted, middle, last);
      OutcomeThins(lang, noted, before, front);
      ForwardThins(middle, last.n, last.to);
      MergeExactly(middle, last.n, last.to, v, w);
      if StagesKeep(before, front) {
        StagesLast(before, front);
        if SameMeaning(before, after) { MeaningBetween(before, middle, after); }
        if SameMeaning(middle, after) { MeaningThrough(before, middle, after); }
      }
    }
  }

  lemma NoSteps<V(!new)>(before: seq<Node<V>>, steps: seq<Rewrite<V>>)
    requires steps == []
    ensures StagesKeep(before, steps) && MergeableSteps(before, steps)
  {
    MeaningReflexive(before);
    hide SameMeaning;
    assert steps[..0] == [];
  }

  lemma StagesLast<V(!new)>(before: seq<Node<V>>, steps: seq<Rewrite<V>>)
    requires StagesKeep(before, steps)
    ensures SameMeaning(before, Outcome(before, steps))
  {
    hide SameMeaning, Outcome;
    assert steps[..|steps|] == steps;
  }

  // ----- A program that changes -----

  /** What `is` computes on integers; everything else computes nothing. */
  function Comparing(op: Op, payload: nat, vs: seq<int>): int {
    if |vs| == 2 && vs[0] == vs[1] then 1 else 0
  }

  /** A function of two parameters that compares them twice, closes over the second result and returns the first. */
  function TwoComparisons(): seq<Node<int>> {
    [Node(Start, [], NONE, 0, 0), Node(Plain(0), [], 0, 0, 0), Node(Plain(0), [], 0, 1, 0),
     Node(Pure(0), [1, 2], 0, 0, 0), Node(Pure(0), [1, 2], 0, 0, 0), Node(Closure, [4], 0, 0, 0),
     Node(Effect(0), [3], 0, 0, 0)]
  }

  /** The same after the pass. */
  function Merged(): seq<Node<int>> {
    TwoComparisons()[4 := Cleared(TwoComparisons()[4])][5 := Node(Closure, [3], 0, 0, 0)]
  }

  lemma PassMerges()
    ensures Forwarded(TwoComparisons(), 4, 3) == Merged()
  {
    var nodes, after := TwoComparisons(), Forwarded(TwoComparisons(), 4, 3);
    forall m | 0 <= m < 7 && m != 4 ensures after[m] == Merged()[m] {
      assert after[m] == Rewired(nodes[m], 4, 3);
      assert after[m].inputs == Merged()[m].inputs;
    }
  }

  lemma VariablesOf()
    ensures 4 in CapturedSet(TwoComparisons()) && 3 !in CapturedSet(TwoComparisons()) && 3 in CapturedSet(Merged())
  {
    assert CapturedBy(TwoComparisons()[5], 4) && CapturedBy(Merged()[5], 3);
  }

  /** The pass merges the comparisons, and the return, which saw the comparison of the parameters in every run, sees
      whatever the closure wrote. */
  lemma CapturedComparison(lang: Language<int>, t: int -> int) returns (s: int -> int)
    ensures var nodes := TwoComparisons();
      var after := Rewritten(nodes, Forward(4, 3));
      && Justified(SharingExpressions, lang, {}, nodes, Forward(4, 3)) && !Mergeable(nodes, 4, 3)
      && (Fits(Comparing, nodes, t) ==> t(nodes[6].inputs[0]) == Comparing(Pure(0), 0, [t(1), t(2)]))
      && Fits(Comparing, after, s) && s(after[6].inputs[0]) != Comparing(Pure(0), 0, [s(1), s(2)])
  {
    var nodes, after := TwoComparisons(), Merged();
    s := m => if m == 1 then 5 else if m == 2 then 7 else 1;
    VariablesOf();
    PassMerges();
    hide CapturedSet, Forwarded;
    assert Values(t, nodes[3].inputs) == [t(1), t(2)];
    if Fits(Comparing, nodes, t) { assert NodeHolds(Comparing, nodes, CapturedSet(nodes), t, 3); }
    forall m: nat | m < 7 ensures NodeHolds(Comparing, after, CapturedSet(after), s, m) {
      if m == 6 { assert !FreeConstant(after, CapturedSet(after), after[6].inputs[0]); }
    }
  }
}
