/** Where control goes in a sea-of-nodes graph, and what becomes of its way when the optimiser rewrites the graph
    (src/compiler/IROptimizer.cpp:10-36, 203-637). */
module ControlTracks {
  import opened OptimizerGraph
  import opened Optimizer

  // ----- Tracks -----

  /** Ops that stand in the control chain: side effects and a few ops without, such as spreading a list. */
  predicate Conducts(op: Op) {
    HasSideEffects(op) || op.Plain?
  }

  /** The nodes that control passes, each with the node it came from, the input of a join it came in by, and when. */
  datatype Track = Track(steps: set<int>, from: int -> int, way: int -> nat, time: int -> nat)

  ghost predicate Enters<V>(nodes: seq<Node<V>>, k: Track, m: nat)
    requires m < |nodes|
  {
    && k.from(m) in k.steps && k.time(k.from(m)) < k.time(m)
    && if Joins(nodes[m].op) then k.way(m) < |nodes[m].inputs| && nodes[m].inputs[k.way(m)] == k.from(m)
       else nodes[m].control == k.from(m)
  }

  ghost predicate StepOf<V>(nodes: seq<Node<V>>, start: int, k: Track, m: int) {
    0 <= m < |nodes| && Conducts(nodes[m].op) && (m != start ==> Enters(nodes, k, m))
  }

  /** Control starts at `start` and follows the edges of the graph; it passes a node once. */
  ghost predicate Moves<V>(nodes: seq<Node<V>>, start: int, k: Track) {
    forall m :: m in k.steps ==> StepOf(nodes, start, k, m)
  }

  /** The same way after the rewriting: past the nodes that are left. */
  ghost predicate Follows<V>(before: seq<Node<V>>, k: Track, after: seq<Node<V>>, k': Track) {
    && |after| == |before| && k'.way == k.way && k'.time == k.time && k'.steps <= k.steps
    && (forall m :: m in k.steps && 0 <= m < |before| ==>
          if m in k'.steps then after[m].op == before[m].op else !Conducts(after[m].op))
    && forall m :: 0 <= m < |before| && !Conducts(before[m].op) ==> !Conducts(after[m].op)
  }

  lemma FollowsThrough<V>(a: seq<Node<V>>, j: Track, b: seq<Node<V>>, k: Track, c: seq<Node<V>>, l: Track)
    requires Follows(a, j, b, k) && Follows(b, k, c, l)
    ensures Follows(a, j, c, l)
  {
    hide Conducts;
  }

  // ----- Graphs as the front end builds them -----

  /** Control does not hang on Phis and pure expressions, nor on operators that folding makes constants in place. */
  ghost predicate Carries<V(!new)>(lang: Language<V>, op: Op) {
    !op.Phi? && !op.Pure? && (op.Effect? ==> forall vs :: !lang.fold(op, vs).InPlace?)
  }

  ghost predicate Anchor<V(!new)>(lang: Language<V>, nodes: seq<Node<V>>, c: int) {
    0 <= c < |nodes| ==> Carries(lang, nodes[c].op)
  }

  predicate IsIf<V>(nodes: seq<Node<V>>, c: int) {
    0 <= c < |nodes| && nodes[c].op.If?
  }

  predicate Side(op: Op) {
    op.IfTrue? || op.IfFalse?
  }

  ghost predicate TidyJoin<V(!new)>(lang: Language<V>, nodes: seq<Node<V>>, join: Node<V>) {
    join.control == NONE && forall i :: 0 <= i < |join.inputs| ==>
      Anchor(lang, nodes, join.inputs[i]) && !IsIf(nodes, join.inputs[i])
  }

  ghost predicate TidyNode<V(!new)>(lang: Language<V>, nodes: seq<Node<V>>, node: Node<V>) {
    node.op.Nop? ||
    (&& Anchor(lang, nodes, node.control) && (IsIf(nodes, node.control) ==> Side(node.op))
     && (Joins(node.op) ==> TidyJoin(lang, nodes, node)))
  }

  ghost predicate OneSide<V>(nodes: seq<Node<V>>, m: nat, l: nat)
    requires m < |nodes| && l < |nodes|
  {
    IsIf(nodes, nodes[m].control) && nodes[l].control == nodes[m].control && Side(nodes[m].op) ==>
      nodes[l].op != nodes[m].op || m == l
  }

  /** Control hangs on control nodes, a join has no other control, and an If controls one projection for each side. */
  ghost predicate Tidy<V(!new)>(lang: Language<V>, start: int, nodes: seq<Node<V>>) {
    && 0 <= start < |nodes| && nodes[start].op.Start?
    && (forall m :: 0 <= m < |nodes| ==> TidyNode(lang, nodes, nodes[m]))
    && (forall m: nat, l: nat :: m < |nodes| && l < |nodes| ==> OneSide(nodes, m, l))
  }

  /** No join has `n` among its inputs. */
  predicate FeedsNoJoin<V>(nodes: seq<Node<V>>, n: int) {
    forall m :: 0 <= m < |nodes| && Joins(nodes[m].op) ==> n !in nodes[m].inputs
  }

  /** Along `index` each of the Phis gets something that is none of them. */
  ghost predicate Entered<V>(nodes: seq<Node<V>>, phis: seq<nat>, index: nat) {
    forall p :: p in phis && p < |nodes| ==>
      index < |nodes[p].inputs| && 0 <= nodes[p].inputs[index] < |nodes| && nodes[p].inputs[index] !in phis
  }

  /** Past the nodes `gone`; what came from one of them comes from `u`. */
  function Bypass(k: Track, gone: set<int>, u: int): Track {
    Track(k.steps - gone, m => if k.from(m) in gone then u else k.from(m), k.way, k.time)
  }

  // ----- Folding -----

  lemma FoldTidy<V(!new)>(lang: Language<V>, noted: set<int>, start: int, nodes: seq<Node<V>>, n: nat, value: V,
                          rewire: bool)
    requires Tidy(lang, start, nodes) && Justified(Folding, lang, noted, nodes, FoldTo(n, value, rewire))
    ensures Tidy(lang, start, FoldedTo(nodes, n, value, rewire))
  {
    var after := FoldedTo(nodes, n, value, rewire);
    FoldedCarries(lang, noted, nodes, n, value, rewire);
    forall m | 0 <= m < |nodes| ensures TidyNode(lang, after, after[m]) {
      hide FoldOf, Conducts;
      assert TidyNode(lang, nodes, nodes[m]);
      assert TidyNode(lang, nodes, nodes[n]);
    }
    forall m: nat, l: nat | m < |nodes| && l < |nodes| ensures OneSide(after, m, l) {
      hide FoldOf;
      assert OneSide(nodes, m, l);
      assert TidyNode(lang, nodes, nodes[n]);
    }
  }

  /** What is folded in place carries no control. */
  lemma FoldedCarries<V(!new)>(lang: Language<V>, noted: set<int>, nodes: seq<Node<V>>, n: nat, value: V, rewire: bool)
    requires Justified(Folding, lang, noted, nodes, FoldTo(n, value, rewire))
    ensures n < |nodes| && (nodes[n].op.Effect? || nodes[n].op.Pure?)
    ensures !rewire || nodes[n].op.Pure? ==> !Carries(lang, nodes[n].op)
  {
    assert FoldOf(lang, nodes, noted, n) == lang.fold(nodes[n].op, ConstantValues(nodes, nodes[n].inputs));
  }

  /** Control enters no join from `n`. */
  ghost predicate EntersNoJoin<V>(nodes: seq<Node<V>>, start: int, k: Track, n: int) {
    forall m :: m in k.steps && m != start && 0 <= m < |nodes| && Joins(nodes[m].op) ==> k.from(m) != n
  }

  lemma FoldMoves<V(!new)>(lang: Language<V>, noted: set<int>, start: int, nodes: seq<Node<V>>, n: nat, value: V,
                           rewire: bool, k: Track)
    requires Tidy(lang, start, nodes) && Justified(Folding, lang, noted, nodes, FoldTo(n, value, rewire))
    requires rewire ==> FeedsNoJoin(nodes, n) || EntersNoJoin(nodes, start, k, n)
    requires Moves(nodes, start, k)
    ensures n < |nodes|
    ensures var after, k' := FoldedTo(nodes, n, value, rewire), Bypass(k, {n}, nodes[n].control);
      Moves(after, start, k') && Follows(nodes, k, after, k')
  {
    FoldedCarries(lang, noted, nodes, n, value, rewire);
    var after, k' := FoldedTo(nodes, n, value, rewire), Bypass(k, {n}, nodes[n].control);
    FoldFollows(start, nodes, n, value, rewire, k);
    hide FoldOf, Conducts, Follows;
    forall m | m in k'.steps ensures StepOf(after, start, k', m) {
      assert StepOf(nodes, start, k, m) && TidyNode(lang, nodes, nodes[m]);
      if m != start && k.from(m) == n {
        assert StepOf(nodes, start, k, n);
      }
    }
  }

  lemma FoldFollows<V>(start: int, nodes: seq<Node<V>>, n: nat, value: V, rewire: bool, k: Track)
    requires n < |nodes| && (nodes[n].op.Effect? || nodes[n].op.Pure?) && Moves(nodes, start, k)
    ensures Follows(nodes, k, FoldedTo(nodes, n, value, rewire), Bypass(k, {n}, nodes[n].control))
  {
  }

  /**
   * Taking a folded string op out of the control chain leaves control its way exactly when control enters no join
   * from it: joins keep the folded op among their inputs.
   */
  lemma FoldKeepsExactly<V(!new)>(lang: Language<V>, noted: set<int>, start: int, nodes: seq<Node<V>>, n: nat, value: V,
                                  k: Track)
    requires Tidy(lang, start, nodes) && Justified(Folding, lang, noted, nodes, FoldTo(n, value, true))
    requires Moves(nodes, start, k) && n < |nodes|
    ensures Moves(FoldedTo(nodes, n, value, true), start, Bypass(k, {n}, nodes[n].control)) <==>
      EntersNoJoin(nodes, start, k, n)
  {
    var after, k' := FoldedTo(nodes, n, value, true), Bypass(k, {n}, nodes[n].control);
    FoldedCarries(lang, noted, nodes, n, value, true);
    if EntersNoJoin(nodes, start, k, n) {
      FoldMoves(lang, noted, start, nodes, n, value, true, k);
    } else {
      var m :| m in k.steps && m != start && 0 <= m < |nodes| && Joins(nodes[m].op) && k.from(m) == n;
      assert StepOf(nodes, start, k, m);
      assert !StepOf(after, start, k', m) && m in k'.steps;
    }
  }

  // ----- Sending a value to another node -----

  /** A constant goes to a constant, or a Phi or pure expression to anything else. */
  ghost predicate DataForward<V>(nodes: seq<Node<V>>, n: nat, to: int) {
    n < |nodes| && to != n && (nodes[n].op.Phi? || nodes[n].op.Pure? ||
      (nodes[n].op.Constant? && 0 <= to < |nodes| && nodes[to].op.Constant?))
  }

  lemma ForwardTidy<V(!new)>(lang: Language<V>, start: int, nodes: seq<Node<V>>, n: nat, to: int)
    requires Tidy(lang, start, nodes) && DataForward(nodes, n, to)
    ensures Tidy(lang, start, Forwarded(nodes, n, to))
  {
    var after := Forwarded(nodes, n, to);
    forall m | 0 <= m < |nodes| ensures TidyNode(lang, after, after[m]) {
      hide Conducts;
      assert TidyNode(lang, nodes, nodes[m]);
    }
    forall m: nat, l: nat | m < |nodes| && l < |nodes| ensures OneSide(after, m, l) {
      assert OneSide(nodes, m, l) && OneSide(nodes, l, m);
      assert TidyNode(lang, nodes, nodes[m]) && TidyNode(lang, nodes, nodes[l]);
    }
  }

  lemma ForwardMoves<V>(start: int, nodes: seq<Node<V>>, n: nat, to: int, k: Track)
    requires DataForward(nodes, n, to) && Moves(nodes, start, k)
    ensures Moves(Forwarded(nodes, n, to), start, k) && Follows(nodes, k, Forwarded(nodes, n, to), k)
  {
    var after := Forwarded(nodes, n, to);
    assert !Conducts(nodes[n].op);
    forall m | m in k.steps ensures StepOf(after, start, k, m) {
      hide Conducts;
      assert StepOf(nodes, start, k, m);
      if m != start { assert StepOf(nodes, start, k, k.from(m)); }
    }
  }

  // ----- Taking a side -----

  lemma TakeTidy<V(!new)>(lang: Language<V>, noted: set<int>, start: int, nodes: seq<Node<V>>, n: nat, taken: nat,
                          untaken: nat)
    requires Tidy(lang, start, nodes) && Justified(Branching, lang, noted, nodes, TakeSide(n, taken, untaken))
    ensures Tidy(lang, start, Rewritten(nodes, TakeSide(n, taken, untaken)))
  {
    var after := Rewritten(nodes, TakeSide(n, taken, untaken));
    assert TidyNode(lang, nodes, nodes[n]);
    forall m | 0 <= m < |nodes| ensures TidyNode(lang, after, after[m]) {
      hide Conducts;
      assert TidyNode(lang, nodes, nodes[m]);
    }
    forall m: nat, l: nat | m < |nodes| && l < |nodes| ensures OneSide(after, m, l) {
      TakeSides(lang, noted, start, nodes, n, taken, untaken, m, l);
    }
  }

  lemma TakeSides<V(!new)>(lang: Language<V>, noted: set<int>, start: int, nodes: seq<Node<V>>, n: nat, taken: nat,
                           untaken: nat, m: nat, l: nat)
    requires Tidy(lang, start, nodes) && Justified(Branching, lang, noted, nodes, TakeSide(n, taken, untaken))
    requires m < |nodes| && l < |nodes|
    ensures OneSide(Rewritten(nodes, TakeSide(n, taken, untaken)), m, l)
  {
    hide Conducts;
    assert OneSide(nodes, m, l) && TidyNode(lang, nodes, nodes[n]);
    assert TidyNode(lang, nodes, nodes[m]) && TidyNode(lang, nodes, nodes[l]);
  }

  /** What the taken side controlled goes to what controlled the branch; what the other side controlled hangs on
      nothing. */
  lemma SideUses<V>(nodes: seq<Node<V>>, n: nat, taken: nat, untaken: nat, m: nat)
    requires n < |nodes| && taken < |nodes| && untaken < |nodes| && m < |nodes| && m !in {n, taken, untaken}
    requires untaken != taken
    ensures var after := Rewritten(nodes, TakeSide(n, taken, untaken));
      && after[m].op == nodes[m].op
      && after[m].control == (if nodes[m].control == taken then nodes[n].control else nodes[m].control)
      && after[untaken] == Cleared(nodes[untaken])
      && |after[m].inputs| == |nodes[m].inputs|
      && forall i :: 0 <= i < |nodes[m].inputs| ==>
           after[m].inputs[i] == if nodes[m].inputs[i] == taken then nodes[n].control else nodes[m].inputs[i]
  {
  }

  lemma TakeMoves<V(!new)>(lang: Language<V>, noted: set<int>, start: int, nodes: seq<Node<V>>, n: nat, taken: nat,
                           untaken: nat, k: Track)
    requires Tidy(lang, start, nodes) && Justified(Branching, lang, noted, nodes, TakeSide(n, taken, untaken))
    requires Moves(nodes, start, k) && untaken !in k.steps
    ensures n < |nodes|
    ensures var after, k' := Rewritten(nodes, TakeSide(n, taken, untaken)), Bypass(k, {taken, n}, nodes[n].control);
      Moves(after, start, k') && Follows(nodes, k, after, k')
  {
    var after, k' := Rewritten(nodes, TakeSide(n, taken, untaken)), Bypass(k, {taken, n}, nodes[n].control);
    assert Follows(nodes, k, after, k') by { TakeFollows(start, nodes, n, taken, untaken, k); }
    hide Follows, StepOf, Tidy, Moves, Justified, Rewritten;
    forall m | m in k'.steps ensures StepOf(after, start, k', m) {
      TakeStep(lang, noted, start, nodes, n, taken, untaken, k, m);
    }
    assert Moves(after, start, k') by { AllSteps(after, start, k'); }
  }

  lemma AllSteps<V>(nodes: seq<Node<V>>, start: int, k: Track)
    requires forall m :: m in k.steps ==> StepOf(nodes, start, k, m)
    ensures Moves(nodes, start, k)
  {
  }

  lemma TakeStep<V(!new)>(lang: Language<V>, noted: set<int>, start: int, nodes: seq<Node<V>>, n: nat, taken: nat,
                          untaken: nat, k: Track, m: int)
    requires Tidy(lang, start, nodes) && Justified(Branching, lang, noted, nodes, TakeSide(n, taken, untaken))
    requires Moves(nodes, start, k) && untaken !in k.steps && m in k.steps && m !in {taken, n} && n < |nodes|
    ensures StepOf(Rewritten(nodes, TakeSide(n, taken, untaken)), start, Bypass(k, {taken, n}, nodes[n].control), m)
  {
    hide Conducts;
    assert StepOf(nodes, start, k, m) && TidyNode(lang, nodes, nodes[m]);
    if m != start {
      var p := k.from(m);
      assert StepOf(nodes, start, k, p);
      if p == n { OnlySide(lang, start, nodes, n, taken, untaken, k, m); }
      if p == taken { assert StepOf(nodes, start, k, n); }
    }
  }

  lemma TakeFollows<V>(start: int, nodes: seq<Node<V>>, n: nat, taken: nat, untaken: nat, k: Track)
    requires n < |nodes| && taken < |nodes| && untaken < |nodes| && Moves(nodes, start, k) && untaken !in k.steps
    requires nodes[n].op.If? && Side(nodes[taken].op) && Side(nodes[untaken].op) && taken != untaken
    requires nodes[n].control == taken ==> taken !in k.steps
    ensures var after, k' := Rewritten(nodes, TakeSide(n, taken, untaken)), Bypass(k, {taken, n}, nodes[n].control);
      Follows(nodes, k, after, k')
  {
  }

  lemma OnlySide<V(!new)>(lang: Language<V>, start: int, nodes: seq<Node<V>>, n: nat, taken: nat, untaken: nat,
                          k: Track, m: nat)
    requires Tidy(lang, start, nodes) && Moves(nodes, start, k) && m in k.steps && m != start && k.from(m) == n
    requires n < |nodes| && nodes[n].op.If? && taken < |nodes| && untaken < |nodes|
    requires nodes[taken].control == n && nodes[untaken].control == n
    requires (nodes[taken].op.IfTrue? && nodes[untaken].op.IfFalse?) ||
      (nodes[taken].op.IfFalse? && nodes[untaken].op.IfTrue?)
    ensures m == taken || m == untaken
  {
    assert StepOf(nodes, start, k, m) && TidyNode(lang, nodes, nodes[m]);
    assert OneSide(nodes, m, taken) && OneSide(nodes, m, untaken);
  }

  // ----- Dropping a merge -----

  /** What stands for `r` when the Phis are replaced by what they get along `index`. */
  function Given<V>(nodes: seq<Node<V>>, phis: seq<nat>, index: nat, r: int): int {
    if r in phis && 0 <= r < |nodes| && index < |nodes[r].inputs| then nodes[r].inputs[index] else r
  }

  ghost predicate GivenNode<V>(nodes: seq<Node<V>>, phis: seq<nat>, index: nat, m: nat, node: Node<V>)
    requires m < |nodes|
  {
    if m in phis then node == Cleared(node) else
      && node.op == nodes[m].op && node.payload == nodes[m].payload && node.value == nodes[m].value
      && node.control == Given(nodes, phis, index, nodes[m].control) && |node.inputs| == |nodes[m].inputs|
      && forall i :: 0 <= i < |node.inputs| ==> node.inputs[i] == Given(nodes, phis, index, nodes[m].inputs[i])
  }

  /** The Phis are gone, and every reader of a Phi reads what the Phi got along `index`. */
  lemma {:induction false} PhisGiven<V>(nodes: seq<Node<V>>, phis: seq<nat>, index: nat, j: nat)
    requires Entered(nodes, phis, index) && j <= |phis|
    requires forall p :: p in phis ==> p < |nodes|
    ensures forall m :: 0 <= m < |nodes| ==>
      GivenNode(nodes, phis[..j], index, m, ForwardedPhis(nodes, phis[..j], index)[m])
  {
    var after := ForwardedPhis(nodes, phis[..j], index);
    if j > 0 {
      var front, phi := phis[..j - 1], phis[j - 1];
      assert phis[..j] == front + [phi] && phis[..j][..j - 1] == front && phi in phis;
      PhisGiven(nodes, phis, index, j - 1);
      var before := ForwardedPhis(nodes, front, index);
      assert GivenNode(nodes, front, index, phi, before[phi]);
      var d := nodes[phi].inputs[index];
      assert phi !in front ==> after == Forwarded(before, phi, d);
      forall m | 0 <= m < |nodes| ensures GivenNode(nodes, phis[..j], index, m, after[m]) {
        assert GivenNode(nodes, front, index, m, before[m]);
        forall r ensures Given(nodes, phis[..j], index, r) ==
          if phi in front then Given(nodes, front, index, r) else Subst(Given(nodes, front, index, r), phi, d)
        {
          assert r in phis[..j] <==> r in front || r == phi;
        }
      }
    }
  }

  /** What sending Phis elsewhere leaves as it was: the ops of all other nodes, what nodes hang on, and all joins. */
  ghost predicate PhisSent<V>(nodes: seq<Node<V>>, phis: seq<nat>, after: seq<Node<V>>) {
    |after| == |nodes| && forall m :: 0 <= m < |nodes| && !nodes[m].op.Nop? ==>
      (after[m].op.Nop? && m in phis && after[m] == Cleared(after[m])) ||
      (after[m].op == nodes[m].op && after[m].control == nodes[m].control &&
        (Joins(nodes[m].op) ==> after[m].inputs == nodes[m].inputs))
  }

  lemma SentOn<V(!new)>(lang: Language<V>, start: int, nodes: seq<Node<V>>, phis: seq<nat>, middle: seq<Node<V>>,
                        phi: nat, d: int)
    requires PhisSent(nodes, phis, middle) && Tidy(lang, start, middle) && phi in phis && DataForward(middle, phi, d)
    requires middle[phi].op.Phi?
    ensures PhisSent(nodes, phis, Forwarded(middle, phi, d))
  {
    var after := Forwarded(middle, phi, d);
    forall m | 0 <= m < |nodes| && !nodes[m].op.Nop? && m != phi && !middle[m].op.Nop?
      ensures after[m].op == middle[m].op && after[m].control == middle[m].control
      ensures Joins(middle[m].op) ==> after[m].inputs == middle[m].inputs
    {
      assert TidyNode(lang, middle, middle[m]) && after[m] == Rewired(middle[m], phi, d);
    }
  }

  /** Without its Phis the graph is as tidy as before, and control moves as before. */
  lemma {:induction false} PhisMove<V(!new)>(lang: Language<V>, start: int, nodes: seq<Node<V>>, phis: seq<nat>,
                                             index: nat, j: nat, k: Track)
    requires Tidy(lang, start, nodes) && j <= |phis|
    requires forall p :: p in phis ==> p < |nodes| && nodes[p].op.Phi?
    requires Moves(nodes, start, k)
    ensures var after := ForwardedPhis(nodes, phis[..j], index);
      Tidy(lang, start, after) && Moves(after, start, k) && Follows(nodes, k, after, k) && PhisSent(nodes, phis, after)
  {
    if j == 0 {
      assert phis[..0] == [];
      FollowsAtOnce(start, nodes, k);
    } else {
      var front, phi := phis[..j - 1], phis[j - 1];
      assert phis[..j] == front + [phi] && phis[..j][..j - 1] == front && phi in phis;
      var before := ForwardedPhis(nodes, front, index);
      hide Tidy, Moves, Follows;
      PhisMove(lang, start, nodes, phis, index, j - 1, k);
      if index < |before[phi].inputs| && before[phi].inputs[index] != NONE && before[phi].inputs[index] != phi {
        var d := before[phi].inputs[index];
        assert DataForward(before, phi, d);
        hide PhisSent;
        ForwardTidy(lang, start, before, phi, d);
        ForwardMoves(start, before, phi, d, k);
        FollowsThrough(nodes, k, before, k, Forwarded(before, phi, d), k);
        SentOn(lang, start, nodes, phis, before, phi, d);
      }
    }
  }

  lemma FollowsAtOnce<V>(start: int, nodes: seq<Node<V>>, k: Track)
    requires Moves(nodes, start, k)
    ensures Follows(nodes, k, nodes, k)
  {
  }

  lemma MergeTidy<V(!new)>(lang: Language<V>, start: int, nodes: seq<Node<V>>, n: nat, first: nat)
    requires Tidy(lang, start, nodes) && n < |nodes| && nodes[n].op.Merge? && first < |nodes| && first != n
    requires first in nodes[n].inputs
    ensures Tidy(lang, start, Forwarded(nodes, n, first))
  {
    var after := Forwarded(nodes, n, first);
    assert TidyNode(lang, nodes, nodes[n]);
    forall m | 0 <= m < |nodes| ensures TidyNode(lang, after, after[m]) {
      hide Conducts;
      assert TidyNode(lang, nodes, nodes[m]);
    }
    forall m: nat, l: nat | m < |nodes| && l < |nodes| ensures OneSide(after, m, l) {
      assert OneSide(nodes, m, l);
      assert TidyNode(lang, nodes, nodes[m]) && TidyNode(lang, nodes, nodes[l]);
    }
  }

  lemma MergeMoves<V(!new)>(lang: Language<V>, start: int, nodes: seq<Node<V>>, n: nat, first: nat, k: Track)
    requires Tidy(lang, start, nodes) && n < |nodes| && nodes[n].op.Merge? && Sole(nodes, n, first)
    requires first < |nodes| && Moves(nodes, start, k)
    ensures var after, k' := Forwarded(nodes, n, first), Bypass(k, {n}, first);
      Moves(after, start, k') && Follows(nodes, k, after, k')
    ensures n in k.steps ==> k.from(n) == first && n != start
  {
    var after, k' := Forwarded(nodes, n, first), Bypass(k, {n}, first);
    if n in k.steps { CameFromFirst(start, nodes, n, first, k); }
    forall m | m in k'.steps ensures StepOf(after, start, k', m) {
      hide Conducts, Sole;
      assert StepOf(nodes, start, k, m);
      if m != start { assert StepOf(nodes, start, k, k.from(m)); }
    }
  }

  lemma CameFromFirst<V>(start: int, nodes: seq<Node<V>>, n: nat, first: nat, k: Track)
    requires 0 <= start < |nodes| && nodes[start].op.Start?
    requires n < |nodes| && nodes[n].op.Merge? && Sole(nodes, n, first) && Moves(nodes, start, k) && n in k.steps
    ensures n != start && k.from(n) == first && k.way(n) < |nodes[n].inputs| && nodes[n].inputs[k.way(n)] == first
    ensures first in k.steps && k.time(first) < k.time(n)
  {
    assert StepOf(nodes, start, k, n) && StepOf(nodes, start, k, k.from(n));
    assert Counts(nodes, n, k.way(n));
  }

  /** The merge keeps its only way in when its Phis are gone. */
  lemma StillSole<V(!new)>(lang: Language<V>, start: int, nodes: seq<Node<V>>, n: nat, phis: seq<nat>, first: nat,
                           middle: seq<Node<V>>)
    requires Tidy(lang, start, nodes) && n < |nodes| && nodes[n].op.Merge? && Sole(nodes, n, first)
    requires PhisSent(nodes, phis, middle) && forall p :: p in phis ==> p < |nodes| && nodes[p].op.Phi?
    requires forall m :: 0 <= m < |nodes| && nodes[m].op.Nop? ==> middle[m].op.Nop?
    ensures middle[n].op.Merge? && middle[n].inputs == nodes[n].inputs && Sole(middle, n, first)
  {
    assert TidyNode(lang, nodes, nodes[n]);
    forall i | 0 <= i < |nodes[n].inputs|
      ensures middle[n].inputs[i] == nodes[n].inputs[i] && (Counts(middle, n, i) <==> Counts(nodes, n, i))
    {
      assert Anchor(lang, nodes, nodes[n].inputs[i]);
    }
  }

  lemma DropMoves<V(!new)>(lang: Language<V>, noted: set<int>, start: int, nodes: seq<Node<V>>, n: nat, phis: seq<nat>,
                           first: nat, index: nat, k: Track)
    requires Tidy(lang, start, nodes) && Moves(nodes, start, k)
    requires Justified(Joining, lang, noted, nodes, DropMerge(n, phis, first, index)) && n < |nodes|
    ensures var after, k' := Rewritten(nodes, DropMerge(n, phis, first, index)), Bypass(k, {n}, first);
      Tidy(lang, start, after) && Moves(after, start, k') && Follows(nodes, k, after, k')
  {
    var middle := ForwardedPhis(nodes, phis, index);
    MergeFacts(noted, nodes, n, phis, first, index);
    assert phis[..|phis|] == phis;
    PhisMove(lang, start, nodes, phis, index, |phis|, k);
    GoneStays(nodes, phis, index);
    StillSole(lang, start, nodes, n, phis, first, middle);
    hide Tidy, Moves, Sole, Follows;
    MergeTidy(lang, start, middle, n, first);
    MergeMoves(lang, start, middle, n, first, k);
    FollowsThrough(nodes, k, middle, k, Forwarded(middle, n, first), Bypass(k, {n}, first));
  }

  lemma {:induction false} GoneStays<V>(nodes: seq<Node<V>>, phis: seq<nat>, index: nat)
    ensures forall m :: 0 <= m < |nodes| && nodes[m].op.Nop? ==> ForwardedPhis(nodes, phis, index)[m].op.Nop?
  {
    if phis != [] { GoneStays(nodes, phis[..|phis| - 1], index); }
  }

  lemma MergeFacts<V>(noted: set<int>, nodes: seq<Node<V>>, n: nat, phis: seq<nat>, first: nat, index: nat)
    requires n < |nodes| && Drops(nodes, noted, n, phis, first, index)
    ensures forall p :: p in phis ==> p < |nodes| && nodes[p].op.Phi? && nodes[p].control == n && p !in noted
    ensures nodes[n].op.Merge? && Sole(nodes, n, first) && first < |nodes| && first in nodes[n].inputs && first != n
  {
    forall p | p in phis ensures p < |nodes| && nodes[p].op.Phi? && nodes[p].control == n && p !in noted {
      assert IsPhiOf(nodes, n, p);
    }
    var i :| 0 <= i < |nodes[n].inputs| && Counts(nodes, n, i) && nodes[n].inputs[i] == first;
  }

  /** Where the readers of a merge and of its Phis find what they read when the merge is dropped. */
  lemma DropUses<V>(noted: set<int>, nodes: seq<Node<V>>, n: nat, phis: seq<nat>, first: nat, index: nat, m: nat)
    requires n < |nodes| && Drops(nodes, noted, n, phis, first, index) && Entered(nodes, phis, index)
    requires m < |nodes| && m !in phis && m != n
    ensures var after := Rewritten(nodes, DropMerge(n, phis, first, index));
      && after[m].op == nodes[m].op && after[n].op.Nop?
      && after[m].control == Subst(Given(nodes, phis, index, nodes[m].control), n, first)
      && |after[m].inputs| == |nodes[m].inputs|
      && forall i :: 0 <= i < |nodes[m].inputs| ==>
           after[m].inputs[i] == Subst(Given(nodes, phis, index, nodes[m].inputs[i]), n, first)
  {
    MergeFacts(noted, nodes, n, phis, first, index);
    assert phis[..|phis|] == phis;
    PhisGiven(nodes, phis, index, |phis|);
    assert GivenNode(nodes, phis, index, m, ForwardedPhis(nodes, phis, index)[m]);
  }

  // ----- Sweeping -----

  lemma {:induction false} StepReached<V>(start: int, nodes: seq<Node<V>>, k: Track, m: int)
    requires Moves(nodes, start, k) && m in k.steps
    ensures Reachable(nodes, start, m) && 0 <= m < |nodes|
    decreases k.time(m)
  {
    hide Reached;
    assert StepOf(nodes, start, k, m);
    if m == start {
      ReachedRoot(|nodes|, {start}, ControlEdge(nodes), m);
    } else {
      var p := k.from(m);
      StepReached(start, nodes, k, p);
      assert ControlEdge(nodes)(p, m);
      ReachedNext(|nodes|, {start}, ControlEdge(nodes), p, m);
    }
  }

  /** The track through what is live. */
  function Alive(k: Track, live: set<int>): Track {
    Track(k.steps * live, k.from, k.way, k.time)
  }

  lemma SweepMoves<V>(start: int, nodes: seq<Node<V>>, reach: set<int>, live: set<int>, after: seq<Node<V>>, k: Track)
    requires IsReach(nodes, start, reach) && IsLive(nodes, reach, live) && Swept(nodes, live, after)
    requires Moves(nodes, start, k)
    ensures forall m :: m in k.steps ==> m in reach && 0 <= m < |nodes| && (HasSideEffects(nodes[m].op) ==> m in live)
    ensures Moves(after, start, Alive(k, live)) && Follows(nodes, k, after, Alive(k, live))
  {
    hide Reachable, Live;
    var k' := Alive(k, live);
    LiveClosed(nodes, reach, live);
    forall m | m in k.steps
      ensures m in reach && 0 <= m < |nodes| && Conducts(nodes[m].op) && (HasSideEffects(nodes[m].op) ==> m in live)
    {
      StepReached(start, nodes, k, m);
      assert StepOf(nodes, start, k, m);
      assert HasSideEffects(nodes[m].op) ==> Root(nodes, reach, m);
    }
    forall m | m in k'.steps ensures StepOf(after, start, k', m) {
      hide IsLive, Conducts;
      assert StepOf(nodes, start, k, m) && after[m] == nodes[m];
      if m != start { assert Needs(nodes, reach, m, k.from(m)); }
    }
  }

  lemma SweepTidy<V(!new)>(lang: Language<V>, start: int, nodes: seq<Node<V>>, reach: set<int>, live: set<int>,
                           after: seq<Node<V>>)
    requires IsReach(nodes, start, reach) && IsLive(nodes, reach, live) && Swept(nodes, live, after)
    requires Tidy(lang, start, nodes)
    ensures Tidy(lang, start, after)
  {
    var k := Track({start}, m => m, m => 0, m => 0);
    assert Moves(nodes, start, k);
    SweepMoves(start, nodes, reach, live, after, k);
    assert start in k.steps;
    hide IsReach, IsLive;
    forall m | 0 <= m < |nodes| ensures TidyNode(lang, after, after[m]) {
      hide Conducts;
      assert TidyNode(lang, nodes, nodes[m]);
    }
    forall m: nat, l: nat | m < |nodes| && l < |nodes| ensures OneSide(after, m, l) {
      assert OneSide(nodes, m, l);
      assert TidyNode(lang, nodes, nodes[m]) && TidyNode(lang, nodes, nodes[l]);
    }
  }
}
