/** The whole optimiser keeps the way of control: side effects that control reaches stay unless they are folded or lie
    on a side that is not taken (src/compiler/IROptimizer.cpp:10-637). */
module OptimizerTracks {
  import opened OptimizerGraph
  import opened Optimizer
  import opened OptimizerMeaning
  import opened ControlTracks

  // ----- Where control is not cut -----

  /** A string op that folding takes out of the control chain feeds no join. */
  ghost predicate OpenStep<V>(nodes: seq<Node<V>>, r: Rewrite<V>) {
    r.FoldTo? && r.rewire ==> FeedsNoJoin(nodes, r.n)
  }

  ghost predicate OpenSteps<V>(before: seq<Node<V>>, steps: seq<Rewrite<V>>) {
    forall j :: 0 <= j < |steps| ==> OpenStep(Outcome(before, steps[..j]), steps[j])
  }

  ghost predicate OpenStage<V>(before: seq<Node<V>>, stage: Stage<V>) {
    stage.Rewriting? ==> OpenSteps(before, stage.steps)
  }

  ghost predicate Open<V>(graphs: seq<seq<Node<V>>>, stages: seq<Stage<V>>) {
    |graphs| == |stages| + 1 && forall i :: 0 <= i < |stages| ==> OpenStage(graphs[i], stages[i])
  }

  predicate Folds<V>(steps: seq<Rewrite<V>>, m: int) {
    exists j :: 0 <= j < |steps| && steps[j].FoldTo? && steps[j].n == m
  }

  predicate LeavesOut<V>(steps: seq<Rewrite<V>>, m: int) {
    exists j :: 0 <= j < |steps| && steps[j].TakeSide? && steps[j].untaken == m
  }

  /** Folding made `m` a constant. */
  predicate WasFolded<V>(stages: seq<Stage<V>>, m: int) {
    exists i :: 0 <= i < |stages| && stages[i].Rewriting? && Folds(stages[i].steps, m)
  }

  /** `m` is the side of a decided branch that was not taken. */
  predicate LeftOut<V>(stages: seq<Stage<V>>, m: int) {
    exists i :: 0 <= i < |stages| && stages[i].Rewriting? && LeavesOut(stages[i].steps, m)
  }

  // ----- One step -----

  /** The track through the rewritten graph. */
  function Image<V>(nodes: seq<Node<V>>, r: Rewrite<V>, k: Track): Track {
    match r
    case FoldTo(n, value, rewire) => Bypass(k, {n}, if n < |nodes| then nodes[n].control else NONE)
    case TakeSide(n, taken, untaken) => Bypass(k, {taken, n}, if n < |nodes| then nodes[n].control else NONE)
    case Forward(n, to) => k
    case DropMerge(n, phis, first, index) => Bypass(k, {n}, first)
  }

  /** Side effects that are no branches, sides or merges. */
  predicate Works(op: Op) {
    HasSideEffects(op) && !op.If? && !Side(op) && !op.Merge?
  }

  /** Such side effects stay on the track, except those for which `folds` holds. */
  ghost predicate Keeps<V>(before: seq<Node<V>>, k: Track, k': Track, folds: int -> bool) {
    forall m :: m in k.steps && 0 <= m < |before| && Works(before[m].op) && !folds(m) ==> m in k'.steps
  }

  lemma ForwardFacts<V>(pass: Pass, lang: Language<V>, noted: set<int>, nodes: seq<Node<V>>, n: nat, to: int)
    requires Justified(pass, lang, noted, nodes, Forward(n, to))
    ensures DataForward(nodes, n, to)
  {
  }

  lemma StepTracks<V(!new)>(pass: Pass, lang: Language<V>, noted: set<int>, start: int, nodes: seq<Node<V>>,
                            r: Rewrite<V>, k: Track)
    requires Tidy(lang, start, nodes) && Justified(pass, lang, noted, nodes, r) && OpenStep(nodes, r)
    requires Moves(nodes, start, k) && (r.TakeSide? ==> r.untaken !in k.steps)
    ensures var after, k' := Rewritten(nodes, r), Image(nodes, r, k);
      && Tidy(lang, start, after) && Moves(after, start, k') && Follows(nodes, k, after, k')
      && Keeps(nodes, k, k', m => r.FoldTo? && r.n == m)
  {
    hide Tidy, Moves, Follows, Sole, FoldOf;
    match r
    case FoldTo(n, value, rewire) =>
      hide FoldedTo;
      FoldTidy(lang, noted, start, nodes, n, value, rewire);
      FoldMoves(lang, noted, start, nodes, n, value, rewire, k);
    case TakeSide(n, taken, untaken) =>
      hide Forwarded, Erased;
      TakeTidy(lang, noted, start, nodes, n, taken, untaken);
      TakeMoves(lang, noted, start, nodes, n, taken, untaken, k);
    case Forward(n, to) =>
      ForwardFacts(pass, lang, noted, nodes, n, to);
      hide Forwarded, Justified;
      ForwardTidy(lang, start, nodes, n, to);
      ForwardMoves(start, nodes, n, to, k);
    case DropMerge(n, phis, first, index) =>
      MergeFacts(noted, nodes, n, phis, first, index);
      hide Forwarded, ForwardedPhis, Drops;
      DropMoves(lang, noted, start, nodes, n, phis, first, index, k);
  }

  lemma KeepsThrough<V>(a: seq<Node<V>>, j: Track, b: seq<Node<V>>, k: Track, l: Track, first: int -> bool,
                        second: int -> bool, both: int -> bool)
    requires Follows(a, j, b, k) && Keeps(a, j, k, first) && Keeps(b, k, l, second)
    requires forall m :: first(m) || second(m) ==> both(m)
    ensures Keeps(a, j, l, both)
  {
    hide Conducts;
  }

  lemma FollowsItself<V>(start: int, nodes: seq<Node<V>>, k: Track)
    requires Moves(nodes, start, k)
    ensures Follows(nodes, k, nodes, k)
  {
  }

  lemma OpenFront<V>(before: seq<Node<V>>, steps: seq<Rewrite<V>>)
    requires OpenSteps(before, steps) && steps != []
    ensures var front := steps[..|steps| - 1];
      OpenSteps(before, front) && OpenStep(Outcome(before, front), steps[|steps| - 1])
  {
    hide OpenStep, Outcome;
    var front := steps[..|steps| - 1];
    assert forall j :: 0 <= j < |front| ==> front[..j] == steps[..j] && front[j] == steps[j];
    assert steps[..|front|] == front;
  }

  // ----- One pass -----

  lemma {:induction false} StepsTrack<V(!new)>(pass: Pass, lang: Language<V>, noted: set<int>, start: int,
                                               before: seq<Node<V>>, steps: seq<Rewrite<V>>, k: Track)
    returns (k': Track)
    requires Derived(pass, lang, noted, before, steps, Outcome(before, steps)) && OpenSteps(before, steps)
    requires Tidy(lang, start, before) && Moves(before, start, k) && forall m :: m in k.steps ==> !LeavesOut(steps, m)
    ensures var after := Outcome(before, steps);
      && Tidy(lang, start, after) && Moves(after, start, k') && Follows(before, k, after, k')
      && Keeps(before, k, k', m => Folds(steps, m))
  {
    hide Derived, OpenSteps, OpenStep, Tidy, Moves, Justified, Rewritten, Image;
    if steps == [] {
      k' := k;
      FollowsItself(start, before, k);
    } else {
      var last := |steps| - 1;
      var front, r := steps[..last], steps[last];
      var middle := Outcome(before, front);
      DerivedFront(pass, lang, noted, before, steps);
      OpenFront(before, steps);
      var j := StepsTrack(pass, lang, noted, start, before, front, k);
      if r.TakeSide? { assert LeavesOut(steps, r.untaken); }
      StepTracks(pass, lang, noted, start, middle, r, j);
      k' := Image(middle, r, j);
      FollowsThrough(before, k, middle, j, Outcome(before, steps), k');
      FoldsBoth(steps);
      KeepsThrough(before, k, middle, j, k', m => Folds(front, m), m => r.FoldTo? && r.n == m, m => Folds(steps, m));
    }
  }

  lemma FoldsBoth<V>(steps: seq<Rewrite<V>>)
    requires steps != []
    ensures var r := steps[|steps| - 1];
      forall m :: Folds(steps[..|steps| - 1], m) || (r.FoldTo? && r.n == m) ==> Folds(steps, m)
  {
    var last := |steps| - 1;
    forall m | Folds(steps[..last], m) || (steps[last].FoldTo? && steps[last].n == m) ensures Folds(steps, m) {
      if Folds(steps[..last], m) {
        var j :| 0 <= j < last && steps[..last][j].FoldTo? && steps[..last][j].n == m;
        assert steps[j].FoldTo? && steps[j].n == m;
      }
    }
  }

  lemma StageTracks<V(!new)>(lang: Language<V>, start: int, before: seq<Node<V>>, stage: Stage<V>,
                             after: seq<Node<V>>, k: Track) returns (k': Track)
    requires StageOf(lang, start, before, stage, after) && OpenStage(before, stage)
    requires Tidy(lang, start, before) && Moves(before, start, k)
    requires forall m :: m in k.steps ==> !LeftOut([stage], m)
    ensures Tidy(lang, start, after) && Moves(after, start, k') && Follows(before, k, after, k')
    ensures Keeps(before, k, k', m => WasFolded([stage], m))
  {
    hide Tidy, Moves, Outcome;
    match stage
    case Rewriting(pass, steps) =>
      forall m | LeavesOut(steps, m) ensures LeftOut([stage], m) {
        assert [stage][0].Rewriting? && LeavesOut([stage][0].steps, m);
      }
      k' := StepsTrack(pass, lang, Noted(pass, before), start, before, steps, k);
      forall m | Folds(steps, m) ensures WasFolded([stage], m) {
        assert [stage][0].Rewriting? && Folds([stage][0].steps, m);
      }
    case Sweeping(reach, live) =>
      hide IsReach, IsLive, Swept;
      k' := Alive(k, live);
      SweepTidy(lang, start, before, reach, live, after);
      SweepMoves(start, before, reach, live, after, k);
  }

  lemma ChainFront<V>(lang: Language<V>, start: int, graphs: seq<seq<Node<V>>>, stages: seq<Stage<V>>)
    requires Chain(lang, start, graphs, stages) && stages != []
    ensures var last := |stages| - 1;
      && Chain(lang, start, graphs[..|graphs| - 1], stages[..last])
      && StageOf(lang, start, graphs[last], stages[last], graphs[last + 1])
  {
    hide StageOf;
  }

  lemma OpenLast<V>(graphs: seq<seq<Node<V>>>, stages: seq<Stage<V>>)
    requires Open(graphs, stages) && stages != []
    ensures var last := |stages| - 1;
      Open(graphs[..|graphs| - 1], stages[..last]) && OpenStage(graphs[last], stages[last])
  {
    hide OpenStage;
  }

  lemma LeftOutBoth<V>(stages: seq<Stage<V>>, m: int)
    requires stages != []
    ensures var last := |stages| - 1;
      && (LeftOut(stages[..last], m) || LeftOut([stages[last]], m) ==> LeftOut(stages, m))
      && (WasFolded(stages[..last], m) || WasFolded([stages[last]], m) ==> WasFolded(stages, m))
  {
    hide Folds, LeavesOut;
    var last := |stages| - 1;
    if LeftOut(stages[..last], m) {
      var i :| 0 <= i < last && stages[..last][i].Rewriting? && LeavesOut(stages[..last][i].steps, m);
      assert stages[i].Rewriting? && LeavesOut(stages[i].steps, m);
    }
    if WasFolded(stages[..last], m) {
      var i :| 0 <= i < last && stages[..last][i].Rewriting? && Folds(stages[..last][i].steps, m);
      assert stages[i].Rewriting? && Folds(stages[i].steps, m);
    }
  }

  /**
   * However the optimiser went about it, control moves through the result as it moved through the original, past what
   * is left. Every side effect that control could reach and that was neither folded nor on a side not taken is there.
   */
  lemma {:induction false} OptimizedTracks<V(!new)>(lang: Language<V>, start: int, graphs: seq<seq<Node<V>>>,
                                                    stages: seq<Stage<V>>, k: Track) returns (k': Track)
    requires Chain(lang, start, graphs, stages) && Open(graphs, stages) && Tidy(lang, start, graphs[0])
    requires Moves(graphs[0], start, k) && forall m :: m in k.steps ==> !LeftOut(stages, m)
    ensures var before, after := graphs[0], graphs[|graphs| - 1];
      && Tidy(lang, start, after) && Moves(after, start, k') && Follows(before, k, after, k')
      && forall m :: m in k.steps && 0 <= m < |before| && Works(before[m].op) && !WasFolded(stages, m) ==>
           m in k'.steps && after[m].op == before[m].op
  {
    hide Chain, Open, Tidy, Moves, LeftOut, WasFolded, StageOf, OpenStage, Conducts;
    if stages == [] {
      k' := k;
      ChainSize(lang, start, graphs, stages);
      FollowsItself(start, graphs[0], k);
    } else {
      var last := |stages| - 1;
      ChainSize(lang, start, graphs, stages);
      ChainFront(lang, start, graphs, stages);
      OpenLast(graphs, stages);
      forall m ensures (LeftOut(stages[..last], m) || LeftOut([stages[last]], m) ==> LeftOut(stages, m)) &&
        (WasFolded(stages[..last], m) || WasFolded([stages[last]], m) ==> WasFolded(stages, m))
      {
        LeftOutBoth(stages, m);
      }
      var j := OptimizedTracks(lang, start, graphs[..|graphs| - 1], stages[..last], k);
      k' := StageTracks(lang, start, graphs[last], stages[last], graphs[last + 1], j);
      FollowsThrough(graphs[0], k, graphs[last], j, graphs[last + 1], k');
    }
  }

  // ----- What control can reach -----

  /** An edge of the control graph to a node that stands in the chain and is not in `off`. */
  function OpenEdge<V>(nodes: seq<Node<V>>, off: set<int>): Edge {
    (m, use) => ControlUse(nodes, m, use) && Conducts(nodes[use].op) && use !in off
  }

  function Stretched(k: Track, p: int, m: int, i: nat): Track {
    if m in k.steps then k else
      Track(k.steps + {m}, l => if l == m then p else k.from(l), l => if l == m then i else k.way(l),
        l => if l == m then k.time(p) + 1 else k.time(l))
  }

  lemma StretchedMoves<V(!new)>(lang: Language<V>, start: int, nodes: seq<Node<V>>, off: set<int>, k: Track, p: int,
                               m: int) returns (k': Track)
    requires Tidy(lang, start, nodes) && Moves(nodes, start, k) && p in k.steps && OpenEdge(nodes, off)(p, m)
    requires k.steps !! off
    ensures Moves(nodes, start, k') && m in k'.steps && k'.steps !! off
  {
    assert TidyNode(lang, nodes, nodes[m]);
    var i: nat := 0;
    if Joins(nodes[m].op) { i :| 0 <= i < |nodes[m].inputs| && nodes[m].inputs[i] == p; }
    k' := Stretched(k, p, m, i);
    forall l | l in k'.steps ensures StepOf(nodes, start, k', l) {
      hide Conducts;
      if l in k.steps { assert StepOf(nodes, start, k, l); }
    }
  }

  /** What control can reach lies on a track. */
  least lemma TrackTo<V(!new)>[nat](lang: Language<V>, start: int, nodes: seq<Node<V>>, off: set<int>, m: int)
    requires Tidy(lang, start, nodes) && start !in off
    requires Reached(|nodes|, {start}, OpenEdge(nodes, off), m)
    ensures exists k: Track :: Moves(nodes, start, k) && m in k.steps && k.steps !! off
  {
    hide Tidy, Moves;
    if m == start {
      var k := Track({start}, l => l, l => 0, l => 0);
      assert Moves(nodes, start, k) by { StartMoves(lang, start, nodes); }
    } else {
      var p :| 0 <= p < |nodes| && OpenEdge(nodes, off)(p, m) &&
        Reached#[_k - 1](|nodes|, {start}, OpenEdge(nodes, off), p);
      LowerRank(|nodes|, {start}, OpenEdge(nodes, off), p, _k - 1);
      TrackTo(lang, start, nodes, off, p);
      var j: Track :| Moves(nodes, start, j) && p in j.steps && j.steps !! off;
      var k := StretchedMoves(lang, start, nodes, off, j, p, m);
    }
  }

  lemma StartMoves<V(!new)>(lang: Language<V>, start: int, nodes: seq<Node<V>>)
    requires Tidy(lang, start, nodes)
    ensures Moves(nodes, start, Track({start}, l => l, l => 0, l => 0))
  {
  }

  /** Every side effect that control reaches without the sides that were not taken is still there unless it was
      folded, and control still reaches it. */
  lemma ReachableStays<V(!new)>(lang: Language<V>, start: int, graphs: seq<seq<Node<V>>>, stages: seq<Stage<V>>,
                                off: set<int>, m: int)
    requires Chain(lang, start, graphs, stages) && Open(graphs, stages) && Tidy(lang, start, graphs[0])
    requires start !in off && forall l :: 0 <= l < |graphs[0]| && LeftOut(stages, l) ==> l in off
    requires Reached(|graphs[0]|, {start}, OpenEdge(graphs[0], off), m) && 0 <= m < |graphs[0]|
    requires Works(graphs[0][m].op) && !WasFolded(stages, m)
    ensures var after := graphs[|graphs| - 1];
      |after| == |graphs[0]| && after[m].op == graphs[0][m].op && Reachable(after, start, m)
  {
    TrackTo(lang, start, graphs[0], off, m);
    var k: Track :| Moves(graphs[0], start, k) && m in k.steps && k.steps !! off;
    assert forall l :: l in k.steps ==> StepOf(graphs[0], start, k, l);
    hide Chain, Open, Tidy, Moves, LeftOut, WasFolded, Reached;
    var k' := OptimizedTracks(lang, start, graphs, stages, k);
    StepReached(start, graphs[|graphs| - 1], k', m);
  }

  lemma ChainSize<V>(lang: Language<V>, start: int, graphs: seq<seq<Node<V>>>, stages: seq<Stage<V>>)
    requires Chain(lang, start, graphs, stages)
    ensures |graphs| == |stages| + 1
  {
  }

  // ----- Operands -----

  /** The Phis go to what they get along `index`, one after the other. */
  function MovedPhis<V>(nodes: seq<Node<V>>, phis: seq<nat>, index: nat, x: int): int {
    if phis == [] then x else
      var front, phi := phis[..|phis| - 1], phis[|phis| - 1];
      var before, y := ForwardedPhis(nodes, front, index), MovedPhis(nodes, front, index, x);
      if phi < |before| && index < |before[phi].inputs| && before[phi].inputs[index] != NONE
      then Subst(y, phi, before[phi].inputs[index]) else y
  }

  /** The node that stands for `x` after the step. */
  function Moved<V>(nodes: seq<Node<V>>, r: Rewrite<V>, x: int): int {
    match r
    case FoldTo(_, _, _) => x
    case TakeSide(n, taken, _) => if n < |nodes| then Subst(x, taken, nodes[n].control) else x
    case Forward(n, to) => Subst(x, n, to)
    case DropMerge(n, phis, first, index) => Subst(MovedPhis(nodes, phis, index, x), n, first)
  }

  ghost function MovedBy<V>(before: seq<Node<V>>, steps: seq<Rewrite<V>>, x: int): int {
    if steps == [] then x else
      var front := steps[..|steps| - 1];
      Moved(Outcome(before, front), steps[|steps| - 1], MovedBy(before, front, x))
  }

  /** The node that stands for `x` in the end: it went from one justified replacement to the next. */
  ghost function StandIn<V>(graphs: seq<seq<Node<V>>>, stages: seq<Stage<V>>, x: int): int
    requires |graphs| == |stages| + 1
  {
    if stages == [] then x else
      var last := |stages| - 1;
      var y := StandIn(graphs[..last + 1], stages[..last], x);
      if stages[last].Rewriting? then MovedBy(graphs[last], stages[last].steps, y) else y
  }

  /** What is left reads what stands for the operands that it had. */
  ghost predicate Operands<V>(before: seq<Node<V>>, after: seq<Node<V>>, stand: int -> int) {
    OpsFall(before, after) && forall m :: 0 <= m < |before| && !after[m].op.Nop? && after[m].op == before[m].op ==>
      |after[m].inputs| == |before[m].inputs| &&
      forall i :: 0 <= i < |before[m].inputs| ==> after[m].inputs[i] == stand(before[m].inputs[i])
  }

  lemma OperandsThrough<V>(a: seq<Node<V>>, b: seq<Node<V>>, c: seq<Node<V>>, first: int -> int, second: int -> int,
                           both: int -> int)
    requires Operands(a, b, first) && Operands(b, c, second) && forall x: int :: both(x) == second(first(x))
    ensures Operands(a, c, both)
  {
    forall m | 0 <= m < |a| && !c[m].op.Nop? && c[m].op == a[m].op
      ensures |c[m].inputs| == |a[m].inputs|
      ensures forall i :: 0 <= i < |a[m].inputs| ==> c[m].inputs[i] == both(a[m].inputs[i])
    {
      assert b[m].op == a[m].op && !b[m].op.Nop? && |b[m].inputs| == |a[m].inputs| == |c[m].inputs|;
      forall i | 0 <= i < |a[m].inputs| ensures c[m].inputs[i] == both(a[m].inputs[i]) {
        assert b[m].inputs[i] == first(a[m].inputs[i]) && c[m].inputs[i] == second(b[m].inputs[i]);
        BothAt(first, second, both, a[m].inputs[i]);
      }
    }
  }

  lemma BothAt(first: int -> int, second: int -> int, both: int -> int, y: int)
    requires forall x: int :: both(x) == second(first(x))
    ensures both(y) == second(first(y))
  {
  }

  lemma StepOperands<V>(pass: Pass, lang: Language<V>, noted: set<int>, nodes: seq<Node<V>>, r: Rewrite<V>)
    requires Justified(pass, lang, noted, nodes, r)
    ensures Operands(nodes, Rewritten(nodes, r), x => Moved(nodes, r, x))
  {
    if r.DropMerge? {
      var middle := ForwardedPhis(nodes, r.phis, r.index);
      PhisOperands(nodes, r.phis, r.index);
      ForwardOperands(middle, r.n, r.first);
      hide Operands;
      OperandsThrough(nodes, middle, Forwarded(middle, r.n, r.first), x => MovedPhis(nodes, r.phis, r.index, x),
        x => Subst(x, r.n, r.first), x => Moved(nodes, r, x));
    } else if r.Forward? {
      ForwardOperands(nodes, r.n, r.to);
    } else {
      hide Sole, Drops, ForwardedPhis;
    }
  }

  lemma ForwardOperands<V>(nodes: seq<Node<V>>, n: nat, to: int)
    ensures Operands(nodes, Forwarded(nodes, n, to), x => Subst(x, n, to))
  {
  }

  lemma {:induction false} PhisOperands<V>(nodes: seq<Node<V>>, phis: seq<nat>, index: nat)
    ensures Operands(nodes, ForwardedPhis(nodes, phis, index), x => MovedPhis(nodes, phis, index, x))
  {
    if phis != [] {
      var front, phi := phis[..|phis| - 1], phis[|phis| - 1];
      var before := ForwardedPhis(nodes, front, index);
      PhisOperands(nodes, front, index);
      if phi < |before| && index < |before[phi].inputs| && before[phi].inputs[index] != NONE {
        var d := before[phi].inputs[index];
        ForwardOperands(before, phi, d);
        hide Operands, Forwarded;
        OperandsThrough(nodes, before, Forwarded(before, phi, d), x => MovedPhis(nodes, front, index, x),
          x => Subst(x, phi, d), x => MovedPhis(nodes, phis, index, x));
      }
    }
  }

  lemma {:induction false} StepsOperands<V>(pass: Pass, lang: Language<V>, noted: set<int>, before: seq<Node<V>>,
                                            steps: seq<Rewrite<V>>)
    requires Derived(pass, lang, noted, before, steps, Outcome(before, steps))
    ensures Operands(before, Outcome(before, steps), x => MovedBy(before, steps, x))
  {
    hide Derived, Justified, Rewritten, Moved;
    if steps != [] {
      var last := |steps| - 1;
      var front, r := steps[..last], steps[last];
      var middle := Outcome(before, front);
      DerivedFront(pass, lang, noted, before, steps);
      StepsOperands(pass, lang, noted, before, front);
      StepOperands(pass, lang, noted, middle, r);
      hide Operands;
      OperandsThrough(before, middle, Outcome(before, steps), x => MovedBy(before, front, x), x => Moved(middle, r, x),
        x => MovedBy(before, steps, x));
    }
  }

  lemma StageOperands<V>(lang: Language<V>, start: int, before: seq<Node<V>>, stage: Stage<V>, after: seq<Node<V>>)
    requires StageOf(lang, start, before, stage, after)
    ensures Operands(before, after, x => if stage.Rewriting? then MovedBy(before, stage.steps, x) else x)
  {
    hide IsReach, IsLive;
    match stage
    case Rewriting(pass, steps) => StepsOperands(pass, lang, Noted(pass, before), before, steps);
    case Sweeping(reach, live) =>
  }

  /** In every graph that the optimiser produces, with loops or without, each node that is left reads what stands for
      its operands, and no node is anything else than it was but gone or a constant. */
  lemma {:induction false} OptimizedOperands<V>(lang: Language<V>, start: int, graphs: seq<seq<Node<V>>>,
                                                stages: seq<Stage<V>>)
    requires Chain(lang, start, graphs, stages)
    ensures Operands(graphs[0], graphs[|graphs| - 1], x => StandIn(graphs, stages, x))
  {
    hide Chain, StageOf, MovedBy;
    ChainSize(lang, start, graphs, stages);
    if stages != [] {
      var last := |stages| - 1;
      var front, done := graphs[..last + 1], stages[..last];
      ChainFront(lang, start, graphs, stages);
      OptimizedOperands(lang, start, front, done);
      StageOperands(lang, start, graphs[last], stages[last], graphs[last + 1]);
      hide Operands;
      OperandsThrough(graphs[0], graphs[last], graphs[last + 1], x => StandIn(front, done, x),
        x => if stages[last].Rewriting? then MovedBy(graphs[last], stages[last].steps, x) else x,
        x => StandIn(graphs, stages, x));
    }
  }
}
