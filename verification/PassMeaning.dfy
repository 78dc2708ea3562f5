/** Whole passes of the optimiser: every value assignment that the result admits was admitted before
    (src/compiler/IROptimizer.cpp:103-357, 477-511). */
module PassMeaning {
  import opened OptimizerGraph
  import opened Optimizer
  import opened OptimizerMeaning
  import opened ExpressionSharing

  /** Steps that only rewrite data: all of three passes, and of the fourth those for Phis. */
  ghost predicate DataSteps<V>(steps: seq<Rewrite<V>>) {
    forall k :: 0 <= k < |steps| ==> steps[k].FoldTo? || steps[k].Forward?
  }

  /** A data step leaves joins alone. */
  lemma StepKeeps<V>(pass: Pass, lang: Language<V>, noted: set<int>, nodes: seq<Node<V>>, r: Rewrite<V>)
    requires Justified(pass, lang, noted, nodes, r) && (r.FoldTo? || r.Forward?) && PhisOnJoins(nodes)
    ensures PhisOnJoins(Rewritten(nodes, r)) && OpsFall(nodes, Rewritten(nodes, r))
  {
    var after := Rewritten(nodes, r);
    if r.FoldTo? {
      assert nodes[r.n].op.Effect? || nodes[r.n].op.Pure?;
    } else {
      assert nodes[r.n].op.Constant? || nodes[r.n].op.Pure? || nodes[r.n].op.Phi?;
      assert forall m :: 0 <= m < |nodes| && m != r.n ==> after[m].op == nodes[m].op;
      forall m | 0 <= m < |after| && after[m].op.Phi? && 0 <= after[m].control < |after|
        ensures Joins(after[after[m].control].op)
      {
        if r.n != r.to { assert after[m] == Rewired(nodes[m], r.n, r.to); }
      }
    }
  }

  lemma {:induction false} StepsKeep<V>(pass: Pass, lang: Language<V>, noted: set<int>, before: seq<Node<V>>,
                                        steps: seq<Rewrite<V>>)
    requires Derived(pass, lang, noted, before, steps, Outcome(before, steps)) && DataSteps(steps)
    requires PhisOnJoins(before)
    ensures PhisOnJoins(Outcome(before, steps)) && OpsFall(before, Outcome(before, steps))
  {
    hide Justified, Rewritten, PhisOnJoins, Derived;
    if steps != [] {
      var last := |steps| - 1;
      DerivedFront(pass, lang, noted, before, steps);
      StepsKeep(pass, lang, noted, before, steps[..last]);
      StepKeeps(pass, lang, noted, Outcome(before, steps[..last]), steps[last]);
    }
  }

  /** The variables: for merging expressions those that closures capture, else those that the pass spares. */
  ghost predicate Variables<V>(pass: Pass, noted: set<int>, nodes: seq<Node<V>>, captured: set<int>) {
    captured == if pass == SharingExpressions then CapturedSet(nodes) else noted
  }

  /** Expressions are merged only where that is harmless. */
  ghost predicate Harmless<V>(pass: Pass, before: seq<Node<V>>, steps: seq<Rewrite<V>>) {
    pass == SharingExpressions ==> MergeableSteps(before, steps)
  }

  lemma HarmlessSplit<V>(pass: Pass, before: seq<Node<V>>, steps: seq<Rewrite<V>>)
    requires steps != [] && Harmless(pass, before, steps)
    ensures var front, last := steps[..|steps| - 1], steps[|steps| - 1];
      Harmless(pass, before, front) &&
        (pass == SharingExpressions ==> last.Forward? && Mergeable(Outcome(before, front), last.n, last.to))
  {
    hide MergeableSteps;
    MergeableSplit(before, steps);
  }

  lemma {:induction false} VariablesStay<V>(pass: Pass, lang: Language<V>, noted: set<int>, captured: set<int>,
                                            before: seq<Node<V>>, steps: seq<Rewrite<V>>)
    requires Derived(pass, lang, noted, before, steps, Outcome(before, steps)) && Harmless(pass, before, steps)
    requires Variables(pass, noted, before, captured)
    ensures Variables(pass, noted, Outcome(before, steps), captured)
  {
    hide Derived, Justified, CapturedSet, SameExpression, Forwarded, Harmless, Rewritten;
    if steps != [] && pass == SharingExpressions {
      var front, last := steps[..|steps| - 1], steps[|steps| - 1];
      DerivedFront(pass, lang, noted, before, steps);
      HarmlessSplit(pass, before, steps);
      VariablesStay(pass, lang, noted, captured, before, front);
      StepIsMerge(lang, noted, Outcome(before, front), last);
      CapturedStay(Outcome(before, front), last.n, last.to);
    }
  }

  /**
   * Whatever values fit the graph after a pass fitted it before, with suitable values for the nodes that the pass
   * removed; and what is left, side effects included, sees the same operand values.
   */
  lemma {:induction false} PassMeans<V(!new)>(pass: Pass, lang: Language<V>, eval: Evaluator<V>, noted: set<int>,
                                       captured: set<int>, before: seq<Node<V>>, steps: seq<Rewrite<V>>, s: int -> V)
    returns (t: int -> V)
    requires FoldsRight(lang, eval) && Derived(pass, lang, noted, before, steps, Outcome(before, steps))
    requires DataSteps(steps)
    requires PhisOnJoins(before) && Variables(pass, noted, before, captured) && Harmless(pass, before, steps)
    requires Consistent(eval, Outcome(before, steps), captured, s)
    ensures Consistent(eval, before, captured, t) && Matches(before, Outcome(before, steps), t, s)
  {
    hide Justified, Rewritten, PhisOnJoins, Variables, Harmless, Derived, Consistent, FoldsRight, Matches, OpsFall;
    if steps == [] {
      t := s;
      MatchesItself(before, s);
    } else {
      var last := |steps| - 1;
      var front, r := steps[..last], steps[last];
      var middle := Outcome(before, front);
      DerivedFront(pass, lang, noted, before, steps);
      StepsKeep(pass, lang, noted, before, front);
      StepKeeps(pass, lang, noted, middle, r);
      HarmlessSplit(pass, before, steps);
      VariablesStay(pass, lang, noted, captured, before, front);
      var u := StepMeans(pass, lang, eval, noted, captured, middle, r, s);
      t := PassMeans(pass, lang, eval, noted, captured, before, front, u);
      MatchesThrough(before, middle, Outcome(before, steps), t, u, s);
    }
  }

  lemma MatchesItself<V>(nodes: seq<Node<V>>, s: int -> V)
    ensures Matches(nodes, nodes, s, s)
  {
  }

  lemma MergeableIs<V>(nodes: seq<Node<V>>, n: nat, to: int)
    requires Mergeable(nodes, n, to)
    ensures n !in CapturedSet(nodes)
  {
  }

  lemma StepMeans<V(!new)>(pass: Pass, lang: Language<V>, eval: Evaluator<V>, noted: set<int>, captured: set<int>,
                           nodes: seq<Node<V>>, r: Rewrite<V>, s: int -> V) returns (t: int -> V)
    requires FoldsRight(lang, eval) && Justified(pass, lang, noted, nodes, r) && (r.FoldTo? || r.Forward?)
    requires PhisOnJoins(nodes)
    requires Variables(pass, noted, nodes, captured)
    requires (pass == SharingExpressions ==> r.Forward? && Mergeable(nodes, r.n, r.to))
    requires Consistent(eval, Rewritten(nodes, r), captured, s)
    ensures Consistent(eval, nodes, captured, t) && Matches(nodes, Rewritten(nodes, r), t, s)
  {
    hide FoldsRight, Consistent, FoldOf, SameConstant, Sole, Matches, CapturedSet, Mergeable, SameExpression, Forwarded;
    hide FoldedTo;
    match r
    case FoldTo(n, value, rewire) =>
      FoldMeans(lang, eval, captured, nodes, n, value, rewire, s);
      t := s;
    case Forward(n, to) =>
      if pass == SharingExpressions {
        assert n !in CapturedSet(nodes) by { MergeableIs(nodes, n, to); }
        CapturedStay(nodes, n, to);
        t := MergeBackward(eval, nodes, n, to, s);
      } else {
        ForwardMeans(pass, lang, eval, captured, nodes, n, to, s);
        t := Extended(s, n, to);
      }
  }
}
