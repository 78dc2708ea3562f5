/** What the data passes of the optimiser mean: every value assignment that the rewritten graph admits was admitted
    before (src/compiler/IROptimizer.cpp:103-357, 477-511). */
module OptimizerMeaning {
  import opened OptimizerGraph
  import opened Optimizer

  /** What an operator computes from its payload and the values of its inputs. */
  type Evaluator<!V> = (Op, nat, seq<V>) -> V

  /** Folding at compile time computes what the operator computes, and constants count as the same only if they are. */
  ghost predicate FoldsRight<V(!new)>(lang: Language<V>, eval: Evaluator<V>) {
    && (forall op, payload, vs :: lang.fold(op, vs) != Keep ==> eval(op, payload, vs) == lang.fold(op, vs).value)
    && (forall a, b :: lang.same(a, b) ==> a == b)
  }

  function Values<V>(s: int -> V, refs: seq<int>): (r: seq<V>)
    ensures |r| == |refs| && forall i :: 0 <= i < |refs| ==> r[i] == s(refs[i])
  {
    seq(|refs|, i requires 0 <= i < |refs| => s(refs[i]))
  }

  ghost predicate AllFree<V>(nodes: seq<Node<V>>, captured: set<int>, refs: seq<int>) {
    |refs| > 0 && forall i :: 0 <= i < |refs| ==> FreeConstant(nodes, captured, refs[i])
  }

  /** Nodes whose value the graph determines: operators that are always pure, and overloaded ones on constants. */
  ghost predicate Evaluated<V>(nodes: seq<Node<V>>, captured: set<int>, n: nat)
    requires n < |nodes|
  {
    n !in captured && (nodes[n].op.Pure? || (nodes[n].op.Effect? && AllFree(nodes, captured, nodes[n].inputs)))
  }

  ghost predicate ConstantHolds<V>(nodes: seq<Node<V>>, captured: set<int>, s: int -> V, n: nat)
    requires n < |nodes|
  {
    FreeConstant(nodes, captured, n) ==> s(n) == nodes[n].value
  }

  ghost predicate OperatorHolds<V>(eval: Evaluator<V>, nodes: seq<Node<V>>, captured: set<int>, s: int -> V, n: nat)
    requires n < |nodes|
  {
    Evaluated(nodes, captured, n) ==> s(n) == eval(nodes[n].op, nodes[n].payload, Values(s, nodes[n].inputs))
  }

  /** A Phi has the value of one of the inputs that count. */
  ghost predicate PhiHolds<V>(nodes: seq<Node<V>>, captured: set<int>, s: int -> V, n: nat)
    requires n < |nodes|
  {
    nodes[n].op.Phi? && n !in captured && (exists i :: 0 <= i < |nodes[n].inputs| && Counts(nodes, n, i)) ==>
      exists i :: 0 <= i < |nodes[n].inputs| && Counts(nodes, n, i) && s(n) == s(nodes[n].inputs[i])
  }

  ghost predicate NodeHolds<V>(eval: Evaluator<V>, nodes: seq<Node<V>>, captured: set<int>, s: int -> V, n: nat)
    requires n < |nodes|
  {
    ConstantHolds(nodes, captured, s, n) && OperatorHolds(eval, nodes, captured, s, n) &&
      PhiHolds(nodes, captured, s, n)
  }

  /** The assignment `s` fits the graph. Captured nodes are variables that may change at any time. */
  ghost predicate Consistent<V>(eval: Evaluator<V>, nodes: seq<Node<V>>, captured: set<int>, s: int -> V) {
    forall n: nat :: n < |nodes| ==> NodeHolds(eval, nodes, captured, s, n)
  }

  /** `t` on the old graph and `s` on the new one: what is left has the same value, and unless it was folded it sees
      the same operand values. */
  ghost predicate Matches<V>(before: seq<Node<V>>, after: seq<Node<V>>, t: int -> V, s: int -> V) {
    |after| == |before| && forall m: nat :: m < |after| && !after[m].op.Nop? ==>
      t(m) == s(m) && (after[m].op == before[m].op ==> Values(t, before[m].inputs) == Values(s, after[m].inputs))
  }

  function Extended<V>(s: int -> V, n: nat, to: int): int -> V {
    m => if m == n then s(to) else s(m)
  }

  /** Nodes go away or become constants, and nothing else. */
  ghost predicate OpsFall<V>(before: seq<Node<V>>, after: seq<Node<V>>) {
    |after| == |before| && forall m :: 0 <= m < |before| ==>
      after[m].op == before[m].op || after[m].op.Nop? || (after[m].op.Constant? && !before[m].op.Nop?)
  }

  lemma MatchesThrough<V>(a: seq<Node<V>>, b: seq<Node<V>>, c: seq<Node<V>>, t: int -> V, u: int -> V, s: int -> V)
    requires OpsFall(a, b) && OpsFall(b, c) && Matches(a, b, t, u) && Matches(b, c, u, s)
    ensures OpsFall(a, c) && Matches(a, c, t, s)
  {
    hide Values;
  }

  /** Phis hang on merges and loops. */
  ghost predicate PhisOnJoins<V>(nodes: seq<Node<V>>) {
    forall m :: 0 <= m < |nodes| && nodes[m].op.Phi? && 0 <= nodes[m].control < |nodes| ==>
      Joins(nodes[nodes[m].control].op)
  }

  // ----- Folding -----

  lemma FoldMeans<V(!new)>(lang: Language<V>, eval: Evaluator<V>, captured: set<int>, nodes: seq<Node<V>>, n: nat,
                    value: V, rewire: bool, s: int -> V)
    requires FoldsRight(lang, eval) && Justified(Folding, lang, captured, nodes, FoldTo(n, value, rewire))
    requires PhisOnJoins(nodes)
    requires Consistent(eval, FoldedTo(nodes, n, value, rewire), captured, s)
    ensures Consistent(eval, nodes, captured, s) && Matches(nodes, FoldedTo(nodes, n, value, rewire), s, s)
    ensures PhisOnJoins(FoldedTo(nodes, n, value, rewire))
  {
    var after := FoldedTo(nodes, n, value, rewire);
    forall m: nat | m < |nodes| ensures NodeHolds(eval, nodes, captured, s, m) {
      hide FoldedTo, FoldOf;
      assert NodeHolds(eval, after, captured, s, m);
      if m == n {
        FoldedValue(lang, eval, captured, nodes, n, value, rewire, s);
      } else {
        FoldElsewhere(eval, captured, nodes, n, value, rewire, s, m);
      }
    }
  }

  lemma FoldedValue<V(!new)>(lang: Language<V>, eval: Evaluator<V>, captured: set<int>, nodes: seq<Node<V>>, n: nat,
                      value: V, rewire: bool, s: int -> V)
    requires FoldsRight(lang, eval) && Justified(Folding, lang, captured, nodes, FoldTo(n, value, rewire))
    requires Consistent(eval, FoldedTo(nodes, n, value, rewire), captured, s)
    ensures n < |nodes| && NodeHolds(eval, nodes, captured, s, n)
  {
    var after := FoldedTo(nodes, n, value, rewire);
    assert NodeHolds(eval, after, captured, s, n);
    if n !in captured {
      var inputs := nodes[n].inputs;
      var vs := ConstantValues(nodes, inputs);
      forall i | 0 <= i < |inputs| ensures Values(s, inputs)[i] == vs[i] {
        assert FreeConstant(nodes, captured, inputs[i]) && inputs[i] != n;
        assert NodeHolds(eval, after, captured, s, inputs[i]);
      }
      assert Values(s, inputs) == vs;
      assert FoldOf(lang, nodes, captured, n) == lang.fold(nodes[n].op, vs);
      assert eval(nodes[n].op, nodes[n].payload, vs) == lang.fold(nodes[n].op, vs).value;
    }
  }

  lemma FoldElsewhere<V>(eval: Evaluator<V>, captured: set<int>, nodes: seq<Node<V>>, n: nat, value: V, rewire: bool,
                         s: int -> V, m: nat)
    requires n < |nodes| && m < |nodes| && m != n && (nodes[n].op.Effect? || nodes[n].op.Pure?) && PhisOnJoins(nodes)
    requires NodeHolds(eval, FoldedTo(nodes, n, value, rewire), captured, s, m)
    ensures NodeHolds(eval, nodes, captured, s, m)
  {
    var after := FoldedTo(nodes, n, value, rewire);
    if nodes[m].op.Effect? && Evaluated(nodes, captured, m) {
      forall i | 0 <= i < |nodes[m].inputs| ensures FreeConstant(after, captured, nodes[m].inputs[i]) {
        assert FreeConstant(nodes, captured, nodes[m].inputs[i]);
      }
    }
    if nodes[m].op.Phi? {
      assert after[m].control == nodes[m].control;
      forall i | 0 <= i < |nodes[m].inputs| ensures Counts(after, m, i) <==> Counts(nodes, m, i) {
        FoldCounts(nodes, n, value, rewire, m, i);
      }
    }
  }

  lemma FoldCounts<V>(nodes: seq<Node<V>>, n: nat, value: V, rewire: bool, m: nat, i: nat)
    requires n < |nodes| && m < |nodes| && m != n && (nodes[n].op.Effect? || nodes[n].op.Pure?) && PhisOnJoins(nodes)
    requires nodes[m].op.Phi? && i < |nodes[m].inputs|
    ensures Counts(FoldedTo(nodes, n, value, rewire), m, i) <==> Counts(nodes, m, i)
  {
  }

  // ----- Sending the uses of a node to another one -----

  lemma ForwardElsewhere<V>(eval: Evaluator<V>, captured: set<int>, nodes: seq<Node<V>>, n: nat, to: int, s: int -> V,
                            m: nat)
    requires n < |nodes| && m < |nodes| && m != n && 0 <= to < |nodes| && to != n && !nodes[to].op.Nop?
    requires PhisOnJoins(nodes)
    requires nodes[n].op.Constant? ==> FreeConstant(nodes, captured, to)
    requires nodes[n].op.Constant? || nodes[n].op.Pure? || nodes[n].op.Phi?
    requires NodeHolds(eval, Forwarded(nodes, n, to), captured, s, m)
    ensures NodeHolds(eval, nodes, captured, Extended(s, n, to), m)
  {
    var after, t := Forwarded(nodes, n, to), Extended(s, n, to);
    assert after[m] == Rewired(nodes[m], n, to);
    assert Values(t, nodes[m].inputs) == Values(s, after[m].inputs);
    if nodes[m].op.Effect? && Evaluated(nodes, captured, m) {
      forall i | 0 <= i < |nodes[m].inputs| ensures FreeConstant(after, captured, after[m].inputs[i]) {
        assert FreeConstant(nodes, captured, nodes[m].inputs[i]);
      }
    }
    if nodes[m].op.Phi? {
      ForwardPhi(captured, nodes, n, to, s, m);
    }
  }

  /** Another Phi still chooses among its inputs. */
  lemma ForwardPhi<V>(captured: set<int>, nodes: seq<Node<V>>, n: nat, to: int, s: int -> V, m: nat)
    requires n < |nodes| && m < |nodes| && m != n && 0 <= to < |nodes| && to != n && !nodes[to].op.Nop?
    requires PhisOnJoins(nodes)
    requires nodes[n].op.Constant? || nodes[n].op.Pure? || nodes[n].op.Phi?
    requires nodes[m].op.Phi? && PhiHolds(Forwarded(nodes, n, to), captured, s, m)
    ensures PhiHolds(nodes, captured, Extended(s, n, to), m)
  {
    var after, t := Forwarded(nodes, n, to), Extended(s, n, to);
    forall i | 0 <= i < |nodes[m].inputs| && Counts(nodes, m, i)
      ensures Counts(after, m, i) || t(m) == t(nodes[m].inputs[i])
    {
      ForwardCounts(nodes, n, to, m, i);
    }
    forall i | 0 <= i < |nodes[m].inputs| && Counts(after, m, i)
      ensures Counts(nodes, m, i) && t(nodes[m].inputs[i]) == s(after[m].inputs[i])
    {
      ForwardCounts(nodes, n, to, m, i);
    }
  }

  lemma ForwardCounts<V>(nodes: seq<Node<V>>, n: nat, to: int, m: nat, i: nat)
    requires n < |nodes| && m < |nodes| && m != n && 0 <= to < |nodes| && to != n && !nodes[to].op.Nop?
    requires PhisOnJoins(nodes)
    requires nodes[n].op.Constant? || nodes[n].op.Pure? || nodes[n].op.Phi?
    requires nodes[m].op.Phi? && i < |nodes[m].inputs|
    ensures var after := Forwarded(nodes, n, to);
      && (Counts(after, m, i) ==> Counts(nodes, m, i))
      && (Counts(nodes, m, i) ==> Counts(after, m, i) || (nodes[m].inputs[i] == n && to == m))
  {
    var after := Forwarded(nodes, n, to);
    assert after[m] == Rewired(nodes[m], n, to);
  }

  /** What the removed node was: a Phi with one live input, a constant or an expression that occurs twice. */
  ghost predicate Sharing<V>(pass: Pass, lang: Language<V>, captured: set<int>, nodes: seq<Node<V>>, n: nat, to: int) {
    && Justified(pass, lang, captured, nodes, Forward(n, to))
    && (pass == SharingExpressions ==> n !in captured && to !in captured)
  }

  lemma ForwardMeans<V(!new)>(pass: Pass, lang: Language<V>, eval: Evaluator<V>, captured: set<int>,
                       nodes: seq<Node<V>>, n: nat, to: int, s: int -> V)
    requires FoldsRight(lang, eval) && Sharing(pass, lang, captured, nodes, n, to) && PhisOnJoins(nodes)
    requires Consistent(eval, Forwarded(nodes, n, to), captured, s)
    ensures Consistent(eval, nodes, captured, Extended(s, n, to))
    ensures Matches(nodes, Forwarded(nodes, n, to), Extended(s, n, to), s)
    ensures PhisOnJoins(Forwarded(nodes, n, to))
  {
    var after := Forwarded(nodes, n, to);
    SharingFacts(pass, lang, captured, nodes, n, to);
    forall m: nat | m < |nodes| ensures NodeHolds(eval, nodes, captured, Extended(s, n, to), m) {
      if m == n {
        ForwardedValue(pass, lang, eval, captured, nodes, n, to, s);
      } else {
        hide Forwarded, Sharing, Justified;
        assert NodeHolds(eval, after, captured, s, m);
        ForwardElsewhere(eval, captured, nodes, n, to, s, m);
      }
    }
    forall m | 0 <= m < |after| && after[m].op.Phi? && 0 <= after[m].control < |after|
      ensures Joins(after[after[m].control].op)
    {
      assert after[m] == Rewired(nodes[m], n, to);
    }
  }

  lemma SharingFacts<V>(pass: Pass, lang: Language<V>, captured: set<int>, nodes: seq<Node<V>>, n: nat, to: int)
    requires Sharing(pass, lang, captured, nodes, n, to)
    ensures n < |nodes| && 0 <= to < |nodes| && to != n && !nodes[to].op.Nop?
    ensures nodes[n].op.Constant? ==> FreeConstant(nodes, captured, to)
    ensures nodes[n].op.Constant? || nodes[n].op.Pure? || nodes[n].op.Phi?
  {
  }

  /** The node that is taken away had the value of the one that stands in for it. */
  lemma ForwardedValue<V(!new)>(pass: Pass, lang: Language<V>, eval: Evaluator<V>, captured: set<int>,
                         nodes: seq<Node<V>>, n: nat, to: int, s: int -> V)
    requires FoldsRight(lang, eval) && Sharing(pass, lang, captured, nodes, n, to)
    requires Consistent(eval, Forwarded(nodes, n, to), captured, s)
    ensures n < |nodes| && NodeHolds(eval, nodes, captured, Extended(s, n, to), n)
  {
    var after, t := Forwarded(nodes, n, to), Extended(s, n, to);
    SharingFacts(pass, lang, captured, nodes, n, to);
    assert NodeHolds(eval, after, captured, s, to);
    assert after[to] == Rewired(nodes[to], n, to);
    assert Values(t, nodes[to].inputs) == Values(s, after[to].inputs);
  }
}
