/** The optimiser's passes and its fixpoint loop (src/compiler/IROptimizer.cpp:10-36, 116-515). */
module Optimizer {
  import opened OptimizerGraph

  // ----- The measure -----

  function Weight(op: Op): nat {
    if op.Nop? then 0 else if op.Constant? then 1 else 2
  }

  /** Two for every live node that is not a constant, one for every constant. */
  ghost function Measure<V>(nodes: seq<Node<V>>): nat {
    if nodes == [] then 0 else Measure(nodes[..|nodes| - 1]) + Weight(nodes[|nodes| - 1].op)
  }

  ghost predicate Lighter<V>(before: seq<Node<V>>, after: seq<Node<V>>) {
    |after| == |before| && forall n :: 0 <= n < |before| ==> Weight(after[n].op) <= Weight(before[n].op)
  }

  /** A pass reports a change exactly when it made some node lighter; otherwise it left the graph alone. */
  ghost predicate Progress<V>(before: seq<Node<V>>, after: seq<Node<V>>, changed: bool) {
    && Lighter(before, after)
    && if changed then exists n :: 0 <= n < |before| && Weight(after[n].op) < Weight(before[n].op) else after == before
  }

  lemma {:induction false} LighterMeasure<V>(before: seq<Node<V>>, after: seq<Node<V>>)
    requires Lighter(before, after)
    ensures Measure(after) <= Measure(before)
    ensures (exists n :: 0 <= n < |before| && Weight(after[n].op) < Weight(before[n].op)) ==>
      Measure(after) < Measure(before)
  {
    if before != [] {
      LighterMeasure(before[..|before| - 1], after[..|after| - 1]);
    }
  }

  lemma ProgressTransitive<V>(a: seq<Node<V>>, b: seq<Node<V>>, c: seq<Node<V>>, first: bool, second: bool)
    requires Progress(a, b, first) && Progress(b, c, second)
    ensures Progress(a, c, first || second)
    ensures !second ==> c == b
  {
    hide Weight;
  }

  // ----- Replacing a node -----

  function Subst(r: int, from: int, to: int): int {
    if r == from then to else r
  }

  function SubstAll(refs: seq<int>, from: int, to: int): (r: seq<int>)
    ensures |r| == |refs| && forall i :: 0 <= i < |refs| ==> r[i] == Subst(refs[i], from, to)
  {
    seq(|refs|, i requires 0 <= i < |refs| => Subst(refs[i], from, to))
  }

  function Rewired<V>(node: Node<V>, from: int, to: int): Node<V> {
    node.(control := Subst(node.control, from, to), inputs := SubstAll(node.inputs, from, to))
  }

  /** Every use of `from` goes to `to`, and `from` is gone. */
  ghost predicate Replaced<V>(before: seq<Node<V>>, from: int, to: int, after: seq<Node<V>>) {
    |after| == |before| && forall n :: 0 <= n < |before| ==>
      after[n] == if n == from then Cleared(before[n]) else Rewired(before[n], from, to)
  }

  lemma ReplacedProgress<V>(before: seq<Node<V>>, from: int, to: int, after: seq<Node<V>>)
    requires Valid(before) && 0 <= from < |before| && GoodRef(to, |before|) && Replaced(before, from, to, after)
    ensures Valid(after) && Lighter(before, after)
    ensures !before[from].op.Nop? ==> Progress(before, after, true)
    ensures forall n :: 0 <= n < |before| && n != from ==> after[n].op == before[n].op
  {
  }

  lemma ClearedProgress<V>(before: seq<Node<V>>, n: nat)
    requires Valid(before) && n < |before|
    ensures Valid(before[n := Cleared(before[n])]) && Lighter(before, before[n := Cleared(before[n])])
    ensures !before[n].op.Nop? ==> Progress(before, before[n := Cleared(before[n])], true)
  {
  }

  lemma LighterTransitive<V>(a: seq<Node<V>>, b: seq<Node<V>>, c: seq<Node<V>>)
    requires Lighter(a, b) && Lighter(b, c)
    ensures Lighter(a, c)
  {
    hide Weight;
  }

  // ----- Captured nodes -----

  /** Nodes that closures, updates of captured variables and reference passing refer to. */
  predicate CapturedBy<V>(node: Node<V>, r: int) {
    r != NONE && match node.op
      case Closure => r in node.inputs
      case PassRefs => r in node.inputs
      case UpdateCaptured => |node.inputs| > 0 && node.inputs[0] == r
      case _ => false
  }

  /** The slots that a namespace fills in late. */
  predicate NamespaceSlot<V>(node: Node<V>, r: int, names: bool) {
    r != NONE && node.op.BuildNamespace?
    && exists i :: 0 <= i < |node.inputs| && node.inputs[i] == r && (i >= 3 * node.payload || (names && i % 3 == 1))
  }

  predicate Captured<V>(nodes: seq<Node<V>>, r: int) {
    exists n :: 0 <= n < |nodes| && CapturedBy(nodes[n], r)
  }

  predicate CapturedOrSlot<V>(nodes: seq<Node<V>>, r: int, names: bool) {
    exists n :: 0 <= n < |nodes| && (CapturedBy(nodes[n], r) || NamespaceSlot(nodes[n], r, names))
  }

  /** The sets of captured nodes that the passes collect at their start. */
  function CapturedSet<V>(nodes: seq<Node<V>>): set<int> {
    set r | 0 <= r < |nodes| && Captured(nodes, r)
  }

  function SlotSet<V>(nodes: seq<Node<V>>, names: bool): set<int> {
    set r | 0 <= r < |nodes| && CapturedOrSlot(nodes, r, names)
  }

  // ----- What the operators compute at compile time -----

  /** `Rewire` is for the string ops, which sit in the control chain and leave it when folded. */
  datatype Folded<V> = Keep | InPlace(value: V) | Rewire(value: V)

  /** `fold` gives Keep where evaluation throws or the op is not folded. */
  datatype Language<!V> = Language(fold: (Op, seq<V>) -> Folded<V>, truthy: V -> bool, same: (V, V) -> bool)

  predicate FreeConstant<V>(nodes: seq<Node<V>>, captured: set<int>, r: int) {
    0 <= r < |nodes| && nodes[r].op.Constant? && r !in captured
  }

  function ConstantValues<V>(nodes: seq<Node<V>>, refs: seq<int>): (r: seq<V>)
    requires forall i :: 0 <= i < |refs| ==> 0 <= refs[i] < |nodes|
    ensures |r| == |refs| && forall i :: 0 <= i < |refs| ==> r[i] == nodes[refs[i]].value
  {
    seq(|refs|, i requires 0 <= i < |refs| => nodes[refs[i]].value)
  }

  /** What folding makes of node `n`. */
  function FoldOf<V>(lang: Language<V>, nodes: seq<Node<V>>, captured: set<int>, n: nat): Folded<V>
    requires n < |nodes|
  {
    var node := nodes[n];
    if (node.op.Effect? || node.op.Pure?) && |node.inputs| > 0 && forall i :: 0 <= i < |node.inputs| ==>
      FreeConstant(nodes, captured, node.inputs[i])
    then lang.fold(node.op, ConstantValues(nodes, node.inputs))
    else Keep
  }

  /** A branch on a constant with both its projections. */
  ghost predicate DecidedBranch<V>(nodes: seq<Node<V>>, captured: set<int>, n: nat)
    requires n < |nodes|
  {
    && nodes[n].op.If? && |nodes[n].inputs| == 1 && FreeConstant(nodes, captured, nodes[n].inputs[0])
    && HasProjection(nodes, n, IfTrue) && HasProjection(nodes, n, IfFalse)
  }

  ghost predicate HasProjection<V>(nodes: seq<Node<V>>, n: nat, op: Op) {
    exists m :: 0 <= m < |nodes| && nodes[m].control == n && nodes[m].op == op
  }

  /** An input that counts: not null, not gone, not the node itself, and for a Phi along a live control edge. */
  predicate Counts<V>(nodes: seq<Node<V>>, n: nat, i: nat)
    requires n < |nodes| && i < |nodes[n].inputs|
  {
    var node := nodes[n];
    var r := node.inputs[i];
    && 0 <= r < |nodes| && !nodes[r].op.Nop? && r != n
    && (node.op.Phi? && 0 <= node.control < |nodes| && nodes[node.control].op.Merge? &&
         i < |nodes[node.control].inputs| ==>
          var c := nodes[node.control].inputs[i];
          0 <= c < |nodes| && !nodes[c].op.Nop?)
  }

  /** All inputs that count are `r`, and there is one. */
  ghost predicate Sole<V>(nodes: seq<Node<V>>, n: nat, r: int)
    requires n < |nodes|
  {
    && (exists i :: 0 <= i < |nodes[n].inputs| && Counts(nodes, n, i) && nodes[n].inputs[i] == r)
    && (forall i :: 0 <= i < |nodes[n].inputs| && Counts(nodes, n, i) ==> nodes[n].inputs[i] == r)
  }

  /** No position before `index` counts. */
  ghost predicate FirstCounting<V>(nodes: seq<Node<V>>, n: nat, index: nat)
    requires n < |nodes| && index < |nodes[n].inputs|
  {
    Counts(nodes, n, index) && forall i :: 0 <= i < index ==> !Counts(nodes, n, i)
  }

  ghost predicate SimplePhi<V>(nodes: seq<Node<V>>, captured: set<int>, n: nat)
    requires n < |nodes|
  {
    nodes[n].op.Phi? && n !in captured && exists r :: Sole(nodes, n, r)
  }

  ghost predicate SimpleMerge<V>(nodes: seq<Node<V>>, captured: set<int>, n: nat)
    requires n < |nodes|
  {
    && nodes[n].op.Merge? && (exists r :: Sole(nodes, n, r) && 0 <= r < |nodes| && !nodes[r].op.TryBegin?)
    && forall m :: 0 <= m < |nodes| && nodes[m].op.Phi? && nodes[m].control == n ==> m !in captured
  }

  predicate SameConstant<V>(lang: Language<V>, nodes: seq<Node<V>>, captured: set<int>, j: nat, n: nat) {
    FreeConstant(nodes, captured, j) && FreeConstant(nodes, captured, n) && lang.same(nodes[j].value, nodes[n].value)
  }

  predicate SameExpression<V>(nodes: seq<Node<V>>, j: nat, n: nat) {
    j < |nodes| && n < |nodes| && nodes[n].op.Pure? && nodes[j].op == nodes[n].op &&
      nodes[j].payload == nodes[n].payload
    && nodes[j].inputs == nodes[n].inputs && nodes[j].control == nodes[n].control
  }

  // ----- Rewriting, step by step -----

  /** What the passes before dead-code elimination do to the graph. */
  datatype Rewrite<V> =
    | FoldTo(n: nat, value: V, rewire: bool)
    | TakeSide(n: nat, taken: nat, untaken: nat)
    | Forward(n: nat, to: int)
    | DropMerge(n: nat, phis: seq<nat>, first: nat, index: nat)

  datatype Pass = Folding | Branching | Joining | SharingConstants | SharingExpressions

  /** replaceNode */
  function Forwarded<V>(nodes: seq<Node<V>>, from: nat, to: int): (r: seq<Node<V>>)
    ensures |r| == |nodes|
  {
    if from == to then nodes else
      seq(|nodes|, n requires 0 <= n < |nodes| => if n == from then Cleared(nodes[n]) else Rewired(nodes[n], from, to))
  }

  function Erased<V>(nodes: seq<Node<V>>, n: nat): (r: seq<Node<V>>)
    ensures |r| == |nodes|
  {
    if n < |nodes| then nodes[n := Cleared(nodes[n])] else nodes
  }

  /** Node `n` as a constant; with `rewire` it also leaves the control chain. */
  function FoldedTo<V>(nodes: seq<Node<V>>, n: nat, value: V, rewire: bool): (r: seq<Node<V>>)
    ensures |r| == |nodes|
  {
    seq(|nodes|, m requires 0 <= m < |nodes| =>
      if m == n then Node(Constant, [], if rewire then NONE else nodes[m].control, nodes[m].payload, value)
      else if rewire && n < |nodes| && nodes[m].control == n then nodes[m].(control := nodes[n].control)
      else nodes[m])
  }

  /** The Phis of a merge go to what they get along input `index`, one after the other. */
  function ForwardedPhis<V>(nodes: seq<Node<V>>, phis: seq<nat>, index: nat): (r: seq<Node<V>>)
    ensures |r| == |nodes|
  {
    if phis == [] then nodes else
      var before, phi := ForwardedPhis(nodes, phis[..|phis| - 1], index), phis[|phis| - 1];
      if phi < |before| && index < |before[phi].inputs| && before[phi].inputs[index] != NONE
      then Forwarded(before, phi, before[phi].inputs[index]) else before
  }

  function Rewritten<V>(nodes: seq<Node<V>>, r: Rewrite<V>): (after: seq<Node<V>>)
    ensures |after| == |nodes|
  {
    match r
    case FoldTo(n, value, rewire) => FoldedTo(nodes, n, value, rewire)
    case TakeSide(n, taken, untaken) =>
      if n < |nodes| then Erased(Erased(Forwarded(nodes, taken, nodes[n].control), untaken), n) else nodes
    case Forward(n, to) => Forwarded(nodes, n, to)
    case DropMerge(n, phis, first, index) => Forwarded(ForwardedPhis(nodes, phis, index), n, first)
  }

  /** Why the step may be taken; `captured` is what the pass collected at its start. */
  ghost predicate Justified<V>(pass: Pass, lang: Language<V>, captured: set<int>, nodes: seq<Node<V>>, r: Rewrite<V>) {
    match r
    case FoldTo(n, value, rewire) =>
      pass == Folding && n < |nodes| && FoldOf(lang, nodes, captured, n) ==
        if rewire then Rewire(value) else InPlace(value)
    case TakeSide(n, taken, untaken) =>
      pass == Branching && n < |nodes| && Takes(lang, nodes, captured, n, taken, untaken)
    case Forward(n, to) =>
      && n < |nodes|
      && (match pass
          case Joining => nodes[n].op.Phi? && n !in captured && Sole(nodes, n, to)
          case SharingConstants => 0 <= to < n && SameConstant(lang, nodes, captured, to, n)
          case SharingExpressions => 0 <= to < n && SameExpression(nodes, to, n)
          case _ => false)
    case DropMerge(n, phis, first, index) =>
      pass == Joining && n < |nodes| && Drops(nodes, captured, n, phis, first, index)
  }

  /** The branch is decided, and `taken` is its side. */
  ghost predicate Takes<V>(lang: Language<V>, nodes: seq<Node<V>>, captured: set<int>, n: nat, taken: nat, untaken: nat)
    requires n < |nodes|
  {
    && nodes[n].op.If? && |nodes[n].inputs| == 1 && FreeConstant(nodes, captured, nodes[n].inputs[0])
    && taken < |nodes| && untaken < |nodes| && nodes[taken].control == n && nodes[untaken].control == n
    && (if lang.truthy(nodes[nodes[n].inputs[0]].value) then nodes[taken].op.IfTrue? && nodes[untaken].op.IfFalse?
        else nodes[taken].op.IfFalse? && nodes[untaken].op.IfTrue?)
  }

  /** The merge has one live input, at `index`, and `phis` are its Phis, none of them captured. */
  ghost predicate Drops<V>(nodes: seq<Node<V>>, captured: set<int>, n: nat, phis: seq<nat>, first: nat, index: nat)
    requires n < |nodes|
  {
    && nodes[n].op.Merge? && Sole(nodes, n, first) && first < |nodes| && !nodes[first].op.TryBegin?
    && index < |nodes[n].inputs| && nodes[n].inputs[index] == first && FirstCounting(nodes, n, index)
    && (forall m: nat :: m in phis <==> IsPhiOf(nodes, n, m))
    && (forall m: nat :: IsPhiOf(nodes, n, m) ==> m !in captured)
  }

  ghost predicate IsPhiOf<V>(nodes: seq<Node<V>>, n: nat, m: nat) {
    m < |nodes| && nodes[m].op.Phi? && nodes[m].control == n
  }

  ghost function Outcome<V>(nodes: seq<Node<V>>, steps: seq<Rewrite<V>>): (after: seq<Node<V>>)
    ensures |after| == |nodes|
  {
    if steps == [] then nodes else Rewritten(Outcome(nodes, steps[..|steps| - 1]), steps[|steps| - 1])
  }

  /** `after` comes from `before` by justified steps only. */
  ghost predicate Derived<V>(pass: Pass, lang: Language<V>, captured: set<int>, before: seq<Node<V>>,
                             steps: seq<Rewrite<V>>, after: seq<Node<V>>) {
    after == Outcome(before, steps)
    && forall k :: 0 <= k < |steps| ==> Justified(pass, lang, captured, Outcome(before, steps[..k]), steps[k])
  }

  lemma DerivedNothing<V>(pass: Pass, lang: Language<V>, captured: set<int>, nodes: seq<Node<V>>)
    ensures Derived(pass, lang, captured, nodes, [], nodes)
  {
  }

  lemma DerivedStep<V>(pass: Pass, lang: Language<V>, captured: set<int>, before: seq<Node<V>>, steps: seq<Rewrite<V>>,
                       middle: seq<Node<V>>, r: Rewrite<V>)
    requires Derived(pass, lang, captured, before, steps, middle) && Justified(pass, lang, captured, middle, r)
    ensures Derived(pass, lang, captured, before, steps + [r], Rewritten(middle, r))
  {
    hide Justified, Rewritten;
    var next := steps + [r];
    assert next[..|steps|] == steps;
    forall k | 0 <= k < |next| ensures Justified(pass, lang, captured, Outcome(before, next[..k]), next[k]) {
      if k < |steps| { assert next[..k] == steps[..k]; }
    }
  }

  lemma DerivedFront<V>(pass: Pass, lang: Language<V>, noted: set<int>, before: seq<Node<V>>, steps: seq<Rewrite<V>>)
    requires Derived(pass, lang, noted, before, steps, Outcome(before, steps)) && steps != []
    ensures var front := steps[..|steps| - 1];
      && Derived(pass, lang, noted, before, front, Outcome(before, front))
      && Justified(pass, lang, noted, Outcome(before, front), steps[|steps| - 1])
  {
    hide Justified, Outcome;
    var front := steps[..|steps| - 1];
    assert forall k :: 0 <= k < |front| ==> front[..k] == steps[..k] && front[k] == steps[k];
    assert steps[..|front|] == front;
  }

  // ----- Runs of the optimiser -----

  /** What one pass does: rewriting step by step, or sweeping what is not live. */
  datatype Stage<V> = Rewriting(pass: Pass, steps: seq<Rewrite<V>>) | Sweeping(reach: set<int>, live: set<int>)

  /** What the pass collects at its start. */
  ghost function Noted<V>(pass: Pass, nodes: seq<Node<V>>): set<int> {
    match pass
    case Folding => CapturedSet(nodes)
    case Branching => CapturedSet(nodes)
    case Joining => SlotSet(nodes, false)
    case SharingConstants => SlotSet(nodes, true)
    case SharingExpressions => {}
  }

  ghost predicate StageOf<V>(lang: Language<V>, start: int, before: seq<Node<V>>, stage: Stage<V>,
                             after: seq<Node<V>>) {
    match stage
    case Rewriting(pass, steps) => Derived(pass, lang, Noted(pass, before), before, steps, after)
    case Sweeping(reach, live) =>
      IsReach(before, start, reach) && IsLive(before, reach, live) && Swept(before, live, after)
  }

  /** Each graph comes from the one before it by one pass. */
  ghost predicate Chain<V>(lang: Language<V>, start: int, graphs: seq<seq<Node<V>>>, stages: seq<Stage<V>>) {
    |graphs| == |stages| + 1 &&
      forall k :: 0 <= k < |stages| ==> StageOf(lang, start, graphs[k], stages[k], graphs[k + 1])
  }

  predicate InTurn<V>(stage: Stage<V>, k: nat) {
    match k % 6
    case 0 => stage.Rewriting? && stage.pass == Folding
    case 1 => stage.Rewriting? && stage.pass == Branching
    case 2 => stage.Rewriting? && stage.pass == Joining
    case 3 => stage.Rewriting? && stage.pass == SharingConstants
    case 4 => stage.Rewriting? && stage.pass == SharingExpressions
    case _ => stage.Sweeping?
  }

  /** Whole rounds of the six passes. */
  ghost predicate Rounds<V>(stages: seq<Stage<V>>) {
    |stages| % 6 == 0 && forall k :: 0 <= k < |stages| ==> InTurn(stages[k], k)
  }

  ghost predicate RunFrom<V>(lang: Language<V>, start: int, before: seq<Node<V>>, graphs: seq<seq<Node<V>>>,
                             stages: seq<Stage<V>>, after: seq<Node<V>>) {
    && Chain(lang, start, graphs, stages) && Rounds(stages)
    && graphs[0] == before && graphs[|graphs| - 1] == after
  }

  lemma ChainOn<V>(lang: Language<V>, start: int, a: seq<Node<V>>, graphs: seq<seq<Node<V>>>, stages: seq<Stage<V>>,
                   b: seq<Node<V>>, graphs': seq<seq<Node<V>>>, stages': seq<Stage<V>>, c: seq<Node<V>>)
    requires RunFrom(lang, start, a, graphs, stages, b) && RunFrom(lang, start, b, graphs', stages', c)
    ensures RunFrom(lang, start, a, graphs + graphs'[1..], stages + stages', c)
  {
    hide StageOf, InTurn;
    var all, done := graphs + graphs'[1..], stages + stages';
    forall k | 0 <= k < |done| ensures StageOf(lang, start, all[k], done[k], all[k + 1]) && InTurn(done[k], k) {
      if k >= |stages| {
        var l := k - |stages|;
        assert done[k] == stages'[l] && all[k + 1] == graphs'[l + 1] && all[k] == graphs'[l];
        SameTurn(stages'[l], l, |stages|);
      }
    }
  }

  lemma SameTurn<V>(stage: Stage<V>, l: nat, whole: nat)
    requires whole % 6 == 0
    ensures InTurn(stage, l) <==> InTurn(stage, l + whole)
  {
  }

  lemma ReplacedForwarded<V>(before: seq<Node<V>>, from: nat, to: int, after: seq<Node<V>>)
    requires if from == to then after == before else Replaced(before, from, to, after)
    ensures after == Forwarded(before, from, to)
  {
  }

  // ----- What is left to do -----

  ghost predicate NothingToFold<V>(lang: Language<V>, nodes: seq<Node<V>>) {
    forall n: nat :: n < |nodes| ==> FoldOf(lang, nodes, CapturedSet(nodes), n) == Keep
  }

  ghost predicate NoDecidedBranch<V>(nodes: seq<Node<V>>) {
    forall n: nat :: n < |nodes| ==> !DecidedBranch(nodes, CapturedSet(nodes), n)
  }

  ghost predicate NoSimplePhi<V>(nodes: seq<Node<V>>) {
    forall n: nat :: n < |nodes| ==>
      !SimplePhi(nodes, SlotSet(nodes, false), n) && !SimpleMerge(nodes, SlotSet(nodes, false), n)
  }

  ghost predicate NoRepeatedConstant<V>(lang: Language<V>, nodes: seq<Node<V>>) {
    forall j: nat, n: nat :: j < n < |nodes| ==> !SameConstant(lang, nodes, SlotSet(nodes, true), j, n)
  }

  ghost predicate NoRepeatedExpression<V>(nodes: seq<Node<V>>) {
    forall j: nat, n: nat :: j < n < |nodes| ==> !SameExpression(nodes, j, n)
  }

  ghost predicate NoDeadNode<V>(nodes: seq<Node<V>>, start: int) {
    exists reach, live :: IsReach(nodes, start, reach) && IsLive(nodes, reach, live) && NoneOutside(nodes, live)
  }

  ghost predicate NoneOutside<V>(nodes: seq<Node<V>>, live: set<int>) {
    forall n :: 0 <= n < |nodes| && !nodes[n].op.Nop? ==> n in live
  }

  /** The nodes of one function, rewritten in place. */
  class IRGraph<!V> {
    var nodes: seq<Node<V>>
    const start: int

    constructor (nodes: seq<Node<V>>, start: int)
      ensures this.nodes == nodes && this.start == start
    {
      this.nodes, this.start := nodes, start;
    }

    method ReplaceNode(from: nat, to: int)
      requires Valid(nodes) && from < |nodes| && GoodRef(to, |nodes|)
      modifies this
      ensures if from == to then nodes == old(nodes) else Replaced(old(nodes), from, to, nodes)
      ensures Valid(nodes) && Lighter(old(nodes), nodes)
    {
      if from == to {
        return;
      }
      for n := 0 to |nodes|
        invariant |nodes| == |old(nodes)|
        invariant forall k :: 0 <= k < n ==> nodes[k] == Rewired(old(nodes)[k], from, to)
        invariant forall k :: n <= k < |nodes| ==> nodes[k] == old(nodes)[k]
      {
        nodes := nodes[n := Rewired(nodes[n], from, to)];
      }
      nodes := nodes[from := Cleared(nodes[from])];
      ReplacedProgress(old(nodes), from, to, nodes);
    }

    /** Turns `n` into a constant; a string op also leaves the control chain. */
    method FoldNode(n: nat, value: V, rewire: bool)
      requires Valid(nodes) && n < |nodes| && (nodes[n].op.Effect? || nodes[n].op.Pure?)
      modifies this
      ensures Valid(nodes) && Progress(old(nodes), nodes, true)
      ensures nodes == FoldedTo(old(nodes), n, value, rewire)
    {
      var upstream := nodes[n].control;
      nodes := nodes[n := nodes[n].(op := Constant, value := value, inputs := [])];
      if rewire {
        for m := 0 to |nodes|
          invariant |nodes| == |old(nodes)| && Valid(nodes)
          invariant nodes[n].op == Constant && nodes[n].inputs == [] && nodes[n].payload == old(nodes)[n].payload
          invariant nodes[n].value == value
          invariant forall k :: 0 <= k < |nodes| && k != n ==>
            nodes[k] ==
              if k < m && old(nodes)[k].control == n then old(nodes)[k].(control := upstream) else old(nodes)[k]
        {
          if nodes[m].control == n {
            nodes := nodes[m := nodes[m].(control := upstream)];
          }
        }
        nodes := nodes[n := nodes[n].(control := NONE)];
      }
      assert Weight(nodes[n].op) < Weight(old(nodes)[n].op);
    }

    method FoldConstants(lang: Language<V>) returns (changed: bool, ghost steps: seq<Rewrite<V>>)
      requires Valid(nodes)
      modifies this
      ensures Valid(nodes) && Progress(old(nodes), nodes, changed)
      ensures Derived(Folding, lang, CapturedSet(old(nodes)), old(nodes), steps, nodes)
      ensures !changed ==> NothingToFold(lang, nodes)
    {
      hide Weight, FoldOf, Captured, Valid, Lighter, Derived, FoldedTo;
      changed, steps := false, [];
      var captured := CapturedSet(nodes);
      DerivedNothing(Folding, lang, captured, nodes);
      assert Progress(nodes, nodes, false) by { LighterReflexive(nodes); }
      for n := 0 to |nodes|
        invariant |nodes| == |old(nodes)| && Valid(nodes) && Progress(old(nodes), nodes, changed)
        invariant Derived(Folding, lang, captured, old(nodes), steps, nodes)
        invariant !changed ==> forall k: nat :: k < n ==> FoldOf(lang, nodes, captured, k) == Keep
      {
        ghost var before := nodes;
        match FoldOf(lang, nodes, captured, n)
        case Keep =>
        case InPlace(value) =>
          FoldableOp(lang, nodes, captured, n);
          DerivedStep(Folding, lang, captured, old(nodes), steps, nodes, FoldTo(n, value, false));
          steps := steps + [FoldTo(n, value, false)];
          FoldNode(n, value, false);
          ProgressTransitive(old(nodes), before, nodes, changed, true);
          SameSize(before, nodes);
          changed := true;
        case Rewire(value) =>
          FoldableOp(lang, nodes, captured, n);
          DerivedStep(Folding, lang, captured, old(nodes), steps, nodes, FoldTo(n, value, true));
          steps := steps + [FoldTo(n, value, true)];
          FoldNode(n, value, true);
          ProgressTransitive(old(nodes), before, nodes, changed, true);
          SameSize(before, nodes);
          changed := true;
      }
    }

    /** The last node of this kind that `n` controls. */
    method FindProjection(n: nat, op: Op) returns (m: int)
      ensures NONE <= m < |nodes| && (m != NONE ==> nodes[m].control == n && nodes[m].op == op)
      ensures m == NONE <==> !HasProjection(nodes, n, op)
    {
      m := NONE;
      for k := 0 to |nodes|
        invariant NONE <= m < k && (m != NONE ==> nodes[m].control == n && nodes[m].op == op)
        invariant m == NONE <==> !exists l :: 0 <= l < k && nodes[l].control == n && nodes[l].op == op
      {
        if nodes[k].control == n && nodes[k].op == op {
          m := k;
        }
      }
    }

    /** Keeps the taken side of a decided branch. */
    method TakeBranch(n: nat, taken: nat, untaken: nat)
      requires Valid(nodes) && n < |nodes| && taken < |nodes| && untaken < |nodes|
      requires nodes[n].op.If? && taken != n && untaken != n
      modifies this
      ensures Valid(nodes) && Progress(old(nodes), nodes, true)
      ensures nodes == Rewritten(old(nodes), TakeSide(n, taken, untaken))
    {
      hide Weight, Lighter;
      ghost var n0 := nodes;
      ReplaceNode(taken, nodes[n].control);
      ghost var n1 := nodes;
      ReplacedForwarded(n0, taken, n0[n].control, n1);
      OpsStay(n0, n1, taken, n0[n].control, n);
      SameSize2(n0, n1);
      ClearedProgress(nodes, untaken);
      nodes := nodes[untaken := Cleared(nodes[untaken])];
      ghost var n2 := nodes;
      LighterTransitive(n0, n1, n2);
      assert nodes[n].op.If?;
      ClearedProgress(nodes, n);
      nodes := nodes[n := Cleared(nodes[n])];
      LighterProgress(n0, n2, nodes);
    }

    method FoldControlFlow(lang: Language<V>) returns (changed: bool, ghost steps: seq<Rewrite<V>>)
      requires Valid(nodes)
      modifies this
      ensures Valid(nodes) && Progress(old(nodes), nodes, changed)
      ensures Derived(Branching, lang, CapturedSet(old(nodes)), old(nodes), steps, nodes)
      ensures !changed ==> NoDecidedBranch(nodes)
    {
      hide Weight, Captured, Valid, Lighter, Derived, Rewritten;
      changed, steps := false, [];
      var captured := CapturedSet(nodes);
      DerivedNothing(Branching, lang, captured, nodes);
      assert Progress(nodes, nodes, false) by { LighterReflexive(nodes); }
      for n := 0 to |nodes|
        invariant |nodes| == |old(nodes)| && Valid(nodes) && Progress(old(nodes), nodes, changed)
        invariant Derived(Branching, lang, captured, old(nodes), steps, nodes)
        invariant !changed ==> forall k: nat :: k < n ==> !DecidedBranch(nodes, captured, k)
      {
        if nodes[n].op.If? && |nodes[n].inputs| == 1 && FreeConstant(nodes, captured, nodes[n].inputs[0]) {
          var cond := lang.truthy(nodes[nodes[n].inputs[0]].value);
          var ifTrue := FindProjection(n, IfTrue);
          var ifFalse := FindProjection(n, IfFalse);
          if ifTrue != NONE && ifFalse != NONE {
            ghost var before := nodes;
            var taken, untaken := if cond then ifTrue else ifFalse, if cond then ifFalse else ifTrue;
            DerivedStep(Branching, lang, captured, old(nodes), steps, nodes, TakeSide(n, taken, untaken));
            steps := steps + [TakeSide(n, taken, untaken)];
            TakeBranch(n, taken, untaken);
            ProgressTransitive(old(nodes), before, nodes, changed, true);
            SameSize(before, nodes);
            changed := true;
          }
        }
      }
    }

    /** The common counting input of `n`, if there is one, and the first position that holds it. */
    method FindSole(n: nat) returns (found: bool, r: int, index: nat)
      requires n < |nodes|
      ensures found <==> exists x :: Sole(nodes, n, x)
      ensures found ==>
        Sole(nodes, n, r) && 0 <= r < |nodes| && r != n && index < |nodes[n].inputs| && nodes[n].inputs[index] == r &&
        FirstCounting(nodes, n, index)
    {
      hide Counts;
      found, r, index := false, NONE, 0;
      var inputs := nodes[n].inputs;
      for i := 0 to |inputs|
        invariant found ==> index < i && inputs[index] == r && FirstCounting(nodes, n, index)
        invariant forall k :: 0 <= k < i && Counts(nodes, n, k) ==> found && inputs[k] == r
      {
        if Counts(nodes, n, i) {
          if !found {
            found, r, index := true, inputs[i], i;
          } else if inputs[i] != r {
            TwoDiffer(nodes, n, index, i);
            return false, r, index;
          }
        }
      }
      if found {
        CountsFacts(nodes, n, index);
        assert Sole(nodes, n, r);
      } else {
        forall x ensures !Sole(nodes, n, x) { }
      }
    }

    /** The Phis of merge `n`; fails when a captured one is among them. */
    method DependentPhis(n: nat, captured: set<int>) returns (ok: bool, phis: seq<nat>)
      ensures ok <==> forall m :: 0 <= m < |nodes| && nodes[m].op.Phi? && nodes[m].control == n ==> m !in captured
      ensures forall m: nat :: m in phis <==> IsPhiOf(nodes, n, m)
    {
      ok, phis := true, [];
      for m := 0 to |nodes|
        invariant ok <==> forall k :: 0 <= k < m && nodes[k].op.Phi? && nodes[k].control == n ==> k !in captured
        invariant forall k: nat :: k in phis <==> k < m && IsPhiOf(nodes, n, k)
      {
        if nodes[m].op.Phi? && nodes[m].control == n {
          if m in captured {
            ok := false;
          }
          phis := phis + [m];
        }
      }
    }

    /** Replaces a merge with one live input, and its Phis by what they get along that input. */
    method RemoveMerge(n: nat, phis: seq<nat>, first: nat, index: nat)
      requires Valid(nodes) && n < |nodes| && nodes[n].op.Merge? && first < |nodes| && first != n
      requires forall p :: p in phis ==> p < |nodes| && p != n
      modifies this
      ensures Valid(nodes) && Progress(old(nodes), nodes, true)
      ensures nodes == Rewritten(old(nodes), DropMerge(n, phis, first, index))
    {
      hide Weight, Lighter;
      LighterReflexive(nodes);
      for k := 0 to |phis|
        invariant |nodes| == |old(nodes)| && Valid(nodes) && Lighter(old(nodes), nodes) && nodes[n].op.Merge?
        invariant nodes == ForwardedPhis(old(nodes), phis[..k], index)
      {
        assert phis[..k + 1][..k] == phis[..k] && phis[..k + 1][k] == phis[k];
        var phi := phis[k];
        assert phi in phis;
        if index < |nodes[phi].inputs| && nodes[phi].inputs[index] != NONE {
          ghost var before := nodes;
          assert GoodRef(nodes[phi].inputs[index], |nodes|);
          ReplaceNode(phi, nodes[phi].inputs[index]);
          ReplacedForwarded(before, phi, before[phi].inputs[index], nodes);
          OpsStay(before, nodes, phi, before[phi].inputs[index], n);
          LighterTransitive(old(nodes), before, nodes);
          SameSize2(before, nodes);
        }
      }
      assert phis[..|phis|] == phis;
      ghost var before := nodes;
      ReplaceNode(n, first);
      ReplacedForwarded(before, n, first, nodes);
      ReplacedProgress(before, n, first, nodes);
      LighterProgress(old(nodes), before, nodes);
    }

    method SimplifyPhis(ghost lang: Language<V>) returns (changed: bool, ghost steps: seq<Rewrite<V>>)
      requires Valid(nodes)
      modifies this
      ensures Valid(nodes) && Progress(old(nodes), nodes, changed)
      ensures Derived(Joining, lang, SlotSet(old(nodes), false), old(nodes), steps, nodes)
      ensures !changed ==> NoSimplePhi(nodes)
    {
      hide Weight, CapturedOrSlot, Valid, Lighter, Sole, Derived, Rewritten;
      changed, steps := false, [];
      var captured := SlotSet(nodes, false);
      DerivedNothing(Joining, lang, captured, nodes);
      assert Progress(nodes, nodes, false) by { LighterReflexive(nodes); }
      for n := 0 to |nodes|
        invariant |nodes| == |old(nodes)| && Valid(nodes) && Progress(old(nodes), nodes, changed)
        invariant Derived(Joining, lang, captured, old(nodes), steps, nodes)
        invariant !changed ==>
          forall k: nat :: k < n ==> !SimplePhi(nodes, captured, k) && !SimpleMerge(nodes, captured, k)
      {
        ghost var before := nodes;
        if nodes[n].op.Merge? {
          var found, first, index := FindSole(n);
          SoleUnique(nodes, n, first);
          if found && !nodes[first].op.TryBegin? {
            var ok, phis := DependentPhis(n, captured);
            if ok {
              DerivedStep(Joining, lang, captured, old(nodes), steps, nodes, DropMerge(n, phis, first, index));
              steps := steps + [DropMerge(n, phis, first, index)];
              RemoveMerge(n, phis, first, index);
              ProgressTransitive(old(nodes), before, nodes, changed, true);
              SameSize(before, nodes);
              changed := true;
            }
          }
        } else if nodes[n].op.Phi? && n !in captured {
          var found, first, index := FindSole(n);
          if found {
            DerivedStep(Joining, lang, captured, old(nodes), steps, nodes, Forward(n, first));
            steps := steps + [Forward(n, first)];
            ReplaceNode(n, first);
            ForwardIs(before, n, first, nodes);
            ReplacedProgress(before, n, first, nodes);
            ProgressTransitive(old(nodes), before, nodes, changed, true);
            SameSize(before, nodes);
            changed := true;
          }
        }
      }
    }

    method DeduplicateConstants(lang: Language<V>) returns (changed: bool, ghost steps: seq<Rewrite<V>>)
      requires Valid(nodes)
      modifies this
      ensures Valid(nodes) && Progress(old(nodes), nodes, changed)
      ensures Derived(SharingConstants, lang, SlotSet(old(nodes), true), old(nodes), steps, nodes)
      ensures !changed ==> NoRepeatedConstant(lang, nodes)
    {
      hide Weight, CapturedOrSlot, Valid, Lighter, Derived, Rewritten;
      changed, steps := false, [];
      var captured := SlotSet(nodes, true);
      DerivedNothing(SharingConstants, lang, captured, nodes);
      assert Progress(nodes, nodes, false) by { LighterReflexive(nodes); }
      for n := 0 to |nodes|
        invariant |nodes| == |old(nodes)| && Valid(nodes) && Progress(old(nodes), nodes, changed)
        invariant Derived(SharingConstants, lang, captured, old(nodes), steps, nodes)
        invariant !changed ==> forall j: nat, k: nat :: j < k < n ==> !SameConstant(lang, nodes, captured, j, k)
      {
        var j := 0;
        while j < n && !SameConstant(lang, nodes, captured, j, n)
          invariant 0 <= j <= n && forall k: nat :: k < j ==> !SameConstant(lang, nodes, captured, k, n)
        {
          j := j + 1;
        }
        if j < n {
          ghost var before := nodes;
          DerivedStep(SharingConstants, lang, captured, old(nodes), steps, nodes, Forward(n, j));
          steps := steps + [Forward(n, j)];
          ReplaceNode(n, j);
          ForwardIs(before, n, j, nodes);
          ReplacedProgress(before, n, j, nodes);
          ProgressTransitive(old(nodes), before, nodes, changed, true);
          SameSize(before, nodes);
          changed := true;
        }
      }
    }

    method EliminateCommonSubexpressions(ghost lang: Language<V>) returns (changed: bool, ghost steps: seq<Rewrite<V>>)
      requires Valid(nodes)
      modifies this
      ensures Valid(nodes) && Progress(old(nodes), nodes, changed)
      ensures Derived(SharingExpressions, lang, {}, old(nodes), steps, nodes)
      ensures !changed ==> NoRepeatedExpression(nodes)
    {
      hide Weight, Valid, Lighter, Derived, Rewritten;
      changed, steps := false, [];
      DerivedNothing(SharingExpressions, lang, {}, nodes);
      assert Progress(nodes, nodes, false) by { LighterReflexive(nodes); }
      for n := 0 to |nodes|
        invariant |nodes| == |old(nodes)| && Valid(nodes) && Progress(old(nodes), nodes, changed)
        invariant Derived(SharingExpressions, lang, {}, old(nodes), steps, nodes)
        invariant !changed ==> forall j: nat, k: nat :: j < k < n ==> !SameExpression(nodes, j, k)
      {
        var j := 0;
        while j < n && !SameExpression(nodes, j, n)
          invariant 0 <= j <= n && forall k: nat :: k < j ==> !SameExpression(nodes, k, n)
        {
          j := j + 1;
        }
        if j < n {
          ghost var before := nodes;
          DerivedStep(SharingExpressions, lang, {}, old(nodes), steps, nodes, Forward(n, j));
          steps := steps + [Forward(n, j)];
          ReplaceNode(n, j);
          ForwardIs(before, n, j, nodes);
          ReplacedProgress(before, n, j, nodes);
          ProgressTransitive(old(nodes), before, nodes, changed, true);
          SameSize(before, nodes);
          changed := true;
        }
      }
    }

    /** Keeps exactly the live nodes. */
    method EliminateDeadCode() returns (changed: bool, ghost reach: set<int>, ghost live: set<int>)
      requires Valid(nodes) && GoodRef(start, |nodes|)
      modifies this
      ensures IsReach(old(nodes), start, reach) && IsLive(old(nodes), reach, live) && Swept(old(nodes), live, nodes)
      ensures Valid(nodes) && Progress(old(nodes), nodes, changed)
      ensures !changed ==> NoDeadNode(nodes, start)
    {
      hide IsReach, IsLive;
      var control := ReachControl(nodes, start);
      var used := MarkLive(nodes, control);
      reach, live := control, used;
      var after;
      after, changed := Sweep(nodes, used);
      SweepProgress(nodes, used, after, changed);
      nodes := after;
      if !changed {
        assert NoneOutside(nodes, live);
      }
    }

    /** Runs the passes until none of them finds anything more to do, which happens after finitely many rounds. */
    method Optimize(lang: Language<V>) returns (ghost graphs: seq<seq<Node<V>>>, ghost stages: seq<Stage<V>>)
      requires Valid(nodes) && GoodRef(start, |nodes|)
      modifies this
      ensures Valid(nodes) && Lighter(old(nodes), nodes)
      ensures RunFrom(lang, start, old(nodes), graphs, stages, nodes)
      ensures NothingToFold(lang, nodes) && NoDecidedBranch(nodes) && NoSimplePhi(nodes)
      ensures NoRepeatedConstant(lang, nodes) && NoRepeatedExpression(nodes) && NoDeadNode(nodes, start)
    {
      graphs, stages := [nodes], [];
      assert RunFrom(lang, start, nodes, graphs, stages, nodes);
      hide Weight, Valid, Lighter, NothingToFold, NoDecidedBranch, NoSimplePhi, NoRepeatedConstant;
      hide NoRepeatedExpression, NoDeadNode, Swept, RunFrom;
      LighterReflexive(nodes);
      var changed := true;
      while changed
        invariant Valid(nodes) && |nodes| == |old(nodes)| && Lighter(old(nodes), nodes)
        invariant RunFrom(lang, start, old(nodes), graphs, stages, nodes)
        invariant !changed ==> NothingToFold(lang, nodes) && NoDecidedBranch(nodes) && NoSimplePhi(nodes)
        invariant !changed ==>
          NoRepeatedConstant(lang, nodes) && NoRepeatedExpression(nodes) && NoDeadNode(nodes, start)
        decreases Measure(nodes), changed
      {
        ghost var before := nodes;
        ghost var graphs', stages';
        changed, graphs', stages' := Round(lang);
        ProgressLighter(before, nodes, changed);
        LighterTransitive(old(nodes), before, nodes);
        RunSize(lang, start, before, graphs', stages', nodes);
        ChainOn(lang, start, old(nodes), graphs, stages, before, graphs', stages', nodes);
        graphs, stages := graphs + graphs'[1..], stages + stages';
      }
    }

    /** One round of all passes. */
    method Round(lang: Language<V>)
      returns (changed: bool, ghost graphs: seq<seq<Node<V>>>, ghost stages: seq<Stage<V>>)
      requires Valid(nodes) && GoodRef(start, |nodes|)
      modifies this
      ensures Valid(nodes) && Progress(old(nodes), nodes, changed)
      ensures RunFrom(lang, start, old(nodes), graphs, stages, nodes) && |stages| == 6
      ensures !changed ==> NothingToFold(lang, nodes) && NoDecidedBranch(nodes) && NoSimplePhi(nodes)
      ensures !changed ==> NoRepeatedConstant(lang, nodes) && NoRepeatedExpression(nodes) && NoDeadNode(nodes, start)
    {
      hide Weight, Valid, Lighter, NothingToFold, NoDecidedBranch, NoSimplePhi, NoRepeatedConstant;
      hide NoRepeatedExpression, NoDeadNode, Swept, Derived, RunFrom, IsReach, IsLive, CapturedSet, SlotSet;
      hide RoundStages, Progress;
      ghost var n0 := nodes;
      ghost var folding, branching, joining, constants, expressions;
      changed, folding := FoldConstants(lang);
      ghost var n1 := nodes;
      var more;
      more, branching := FoldControlFlow(lang);
      ProgressTransitive(n0, n1, nodes, changed, more);
      changed := changed || more;
      ghost var n2 := nodes;
      more, joining := SimplifyPhis(lang);
      ProgressTransitive(n0, n2, nodes, changed, more);
      changed := changed || more;
      ghost var n3 := nodes;
      more, constants := DeduplicateConstants(lang);
      ProgressTransitive(n0, n3, nodes, changed, more);
      changed := changed || more;
      ghost var n4 := nodes;
      more, expressions := EliminateCommonSubexpressions(lang);
      ProgressTransitive(n0, n4, nodes, changed, more);
      changed := changed || more;
      ghost var n5 := nodes;
      ProgressLighter(n0, n5, changed);
      ghost var reach, live;
      more, reach, live := EliminateDeadCode();
      ProgressTransitive(n0, n5, nodes, changed, more);
      changed := changed || more;
      graphs := [n0, n1, n2, n3, n4, n5, nodes];
      stages := RoundStages(folding, branching, joining, constants, expressions, reach, live);
      RoundRuns(lang, start, graphs, folding, branching, joining, constants, expressions, reach, live);
    }
  }

  // ----- Small facts -----

  lemma RoundRuns<V>(lang: Language<V>, start: int, graphs: seq<seq<Node<V>>>, folding: seq<Rewrite<V>>,
                     branching: seq<Rewrite<V>>, joining: seq<Rewrite<V>>, constants: seq<Rewrite<V>>,
                     expressions: seq<Rewrite<V>>, reach: set<int>, live: set<int>)
    requires |graphs| == 7
    requires Derived(Folding, lang, CapturedSet(graphs[0]), graphs[0], folding, graphs[1])
    requires Derived(Branching, lang, CapturedSet(graphs[1]), graphs[1], branching, graphs[2])
    requires Derived(Joining, lang, SlotSet(graphs[2], false), graphs[2], joining, graphs[3])
    requires Derived(SharingConstants, lang, SlotSet(graphs[3], true), graphs[3], constants, graphs[4])
    requires Derived(SharingExpressions, lang, {}, graphs[4], expressions, graphs[5])
    requires IsReach(graphs[5], start, reach) && IsLive(graphs[5], reach, live) && Swept(graphs[5], live, graphs[6])
    ensures RunFrom(lang, start, graphs[0], graphs, RoundStages(folding, branching, joining, constants, expressions,
      reach, live), graphs[6])
  {
    hide Derived, IsReach, IsLive, Swept, CapturedSet, SlotSet;
  }

  ghost function RoundStages<V>(folding: seq<Rewrite<V>>, branching: seq<Rewrite<V>>, joining: seq<Rewrite<V>>,
                                constants: seq<Rewrite<V>>, expressions: seq<Rewrite<V>>, reach: set<int>,
                                live: set<int>): (r: seq<Stage<V>>)
    ensures |r| == 6
  {
    [Rewriting(Folding, folding), Rewriting(Branching, branching), Rewriting(Joining, joining),
     Rewriting(SharingConstants, constants), Rewriting(SharingExpressions, expressions), Sweeping(reach, live)]
  }

  lemma RunSize<V>(lang: Language<V>, start: int, before: seq<Node<V>>, graphs: seq<seq<Node<V>>>,
                   stages: seq<Stage<V>>, after: seq<Node<V>>)
    requires RunFrom(lang, start, before, graphs, stages, after)
    ensures |graphs| == |stages| + 1
  {
  }

  lemma ForwardIs<V>(before: seq<Node<V>>, n: nat, to: int, after: seq<Node<V>>)
    requires if n == to then after == before else Replaced(before, n, to, after)
    ensures after == Rewritten(before, Forward(n, to))
  {
    ReplacedForwarded(before, n, to, after);
  }

  lemma LighterReflexive<V>(nodes: seq<Node<V>>)
    ensures Lighter(nodes, nodes)
  {
  }

  lemma SameSize<V>(before: seq<Node<V>>, after: seq<Node<V>>)
    requires Progress(before, after, true)
    ensures |after| == |before|
  {
  }

  lemma SameSize2<V>(before: seq<Node<V>>, after: seq<Node<V>>)
    requires Lighter(before, after)
    ensures |after| == |before|
  {
  }

  lemma ProgressLighter<V>(before: seq<Node<V>>, after: seq<Node<V>>, changed: bool)
    requires Progress(before, after, changed)
    ensures Lighter(before, after) && |after| == |before|
    ensures (if changed then Measure(after) < Measure(before) else after == before)
  {
    LighterMeasure(before, after);
  }

  lemma LighterProgress<V>(a: seq<Node<V>>, b: seq<Node<V>>, c: seq<Node<V>>)
    requires Lighter(a, b) && Progress(b, c, true)
    ensures Progress(a, c, true)
  {
    hide Weight;
  }

  lemma OpsStay<V>(before: seq<Node<V>>, after: seq<Node<V>>, from: nat, to: int, n: nat)
    requires from < |before| && n < |before| && n != from
    requires if from == to then after == before else Replaced(before, from, to, after)
    ensures n < |after| && after[n].op == before[n].op
  {
  }

  lemma FoldableOp<V>(lang: Language<V>, nodes: seq<Node<V>>, captured: set<int>, n: nat)
    requires n < |nodes| && FoldOf(lang, nodes, captured, n) != Keep
    ensures nodes[n].op.Effect? || nodes[n].op.Pure?
  {
  }

  lemma CountsFacts<V>(nodes: seq<Node<V>>, n: nat, i: nat)
    requires n < |nodes| && i < |nodes[n].inputs| && Counts(nodes, n, i)
    ensures 0 <= nodes[n].inputs[i] < |nodes| && nodes[n].inputs[i] != n
  {
  }

  lemma TwoDiffer<V>(nodes: seq<Node<V>>, n: nat, i: nat, j: nat)
    requires n < |nodes| && i < |nodes[n].inputs| && j < |nodes[n].inputs| && Counts(nodes, n, i) && Counts(nodes, n, j)
    requires nodes[n].inputs[i] != nodes[n].inputs[j]
    ensures !exists x :: Sole(nodes, n, x)
  {
    hide Counts;
    forall x ensures !Sole(nodes, n, x) { }
  }

  lemma SoleUnique<V>(nodes: seq<Node<V>>, n: nat, r: int)
    requires n < |nodes|
    ensures Sole(nodes, n, r) ==> forall x :: Sole(nodes, n, x) ==> x == r
  {
    hide Counts;
  }

  lemma SweepProgress<V>(nodes: seq<Node<V>>, live: set<int>, after: seq<Node<V>>, changed: bool)
    requires Valid(nodes) && Swept(nodes, live, after)
    requires changed <==> exists n :: 0 <= n < |nodes| && !nodes[n].op.Nop? && n !in live
    ensures Valid(after) && Progress(nodes, after, changed)
  {
    if changed {
      var n :| 0 <= n < |nodes| && !nodes[n].op.Nop? && n !in live;
      assert Weight(after[n].op) < Weight(nodes[n].op);
    }
  }
}
