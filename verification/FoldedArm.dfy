/** A string that folding turns into a constant at the end of an arm cuts the arm off
    (src/compiler/IROptimizer.cpp:222-236, 252-306). */
module FoldedArm {
  import opened OptimizerGraph
  import opened Optimizer
  import opened OptimizerMeaning
  import opened ControlTracks
  import opened OptimizedRuns

  const START := 0
  const PARAM := 1
  const BRANCH := 2
  const THEN := 3
  const ELSE := 4
  const TEXT := 6
  const JOIN := 7
  const CHOICE := 9
  const RETURN := 10

  /** A branch on a parameter, an arm that ends with a string op on a constant, as the default value of a parameter may
      (src/compiler/IRBuilder.cpp:3480-3511), a Phi of the string and 0, and its return. */
  function Choice(): (r: seq<Node<int>>)
    ensures |r| == 11
  {
    [Node(Start, [], NONE, 0, 0), Node(Plain(0), [], START, 0, 0), Node(If, [PARAM], START, 0, 0),
     Node(IfTrue, [], BRANCH, 0, 0), Node(IfFalse, [], BRANCH, 0, 0), Node(Constant, [], THEN, 0, 1),
     Node(Effect(0), [5], THEN, 0, 0), Node(Merge, [TEXT, ELSE], NONE, 0, 0), Node(Constant, [], ELSE, 0, 0),
     Node(Phi, [TEXT, 8], JOIN, 0, 0), Node(Effect(1), [CHOICE], JOIN, 0, 0)]
  }

  /** Effect 0 is a string op, which leaves the control chain when folded; as a string 1 reads 7. */
  function Strings(): Language<int> {
    Language((op, vs) => if op == Effect(0) && vs == [1] then Rewire(7) else Keep, v => v != 0, (a, b) => a == b)
  }

  function Compute(op: Op, payload: nat, vs: seq<int>): int {
    if op == Effect(0) && vs == [1] then 7 else 0
  }

  function Arm(): Track {
    Track({START, BRANCH, THEN, TEXT, JOIN, RETURN},
      m => if m == RETURN then JOIN else if m == JOIN then TEXT else if m == TEXT then THEN
           else if m == THEN then BRANCH else START,
      m => 0, m => if m < 0 then 0 else m)
  }

  function Seen(): Store<int> {
    Store({PARAM, 5, TEXT, CHOICE}, m => if m == PARAM || m == 5 then 1 else if m == TEXT || m == CHOICE then 7 else 0)
  }

  /**
   * With a true condition the original returns the string. Folding the string is justified, and in the folded graph
   * control comes to the return only with a false condition, and the return then sees 0.
   */
  lemma ArmIsCutOff()
    ensures Tidy(Strings(), START, Choice()) && FoldsRight(Strings(), Compute)
    ensures Runs(Strings(), Compute, Choice(), START, {}, Arm(), Seen())
    ensures RETURN in Arm().steps && Values(Seen().value, Choice()[RETURN].inputs) == [7]
    ensures Justified(Folding, Strings(), CapturedSet(Choice()), Choice(), FoldTo(TEXT, 7, true))
    ensures forall k: Track, w: Store<int> ::
      Runs(Strings(), Compute, FoldedTo(Choice(), TEXT, 7, true), START, {}, k, w) && RETURN in k.steps ==>
        w.value(PARAM) == 0 && Values(w.value, FoldedTo(Choice(), TEXT, 7, true)[RETURN].inputs) == [0]
  {
    ArmRuns();
    ArmFolds();
    forall k: Track, w: Store<int> |
      Runs(Strings(), Compute, FoldedTo(Choice(), TEXT, 7, true), START, {}, k, w) && RETURN in k.steps
      ensures w.value(PARAM) == 0 && Values(w.value, FoldedTo(Choice(), TEXT, 7, true)[RETURN].inputs) == [0]
    {
      OnlyElse(k, w);
    }
  }

  lemma ArmRuns()
    ensures Tidy(Strings(), START, Choice()) && FoldsRight(Strings(), Compute)
    ensures Runs(Strings(), Compute, Choice(), START, {}, Arm(), Seen())
    ensures Values(Seen().value, Choice()[RETURN].inputs) == [7]
  {
    hide Choice, Arm, Seen, Tidy, Moves, DoneBy, UseOf, ConstantsHold, Values;
    ArmTidy();
    ArmMoves();
    ArmUses();
    ArmConstants();
    ArmDone();
  }

  lemma ArmTidy()
    ensures Tidy(Strings(), START, Choice()) && FoldsRight(Strings(), Compute)
  {
    var nodes := Choice();
    assert nodes[START].op.Start?;
    hide TidyNode, Choice, OneSide;
    forall m | 0 <= m < |nodes| ensures TidyNode(Strings(), nodes, nodes[m]) { NodeTidy(m); }
    forall m: nat, l: nat | m < |nodes| && l < |nodes| ensures OneSide(nodes, m, l) { SidesTidy(m, l); }
  }

  lemma SidesTidy(m: nat, l: nat)
    requires m < 11 && l < 11
    ensures OneSide(Choice(), m, l)
  {
  }

  lemma NodeTidy(m: nat)
    requires m < 11
    ensures TidyNode(Strings(), Choice(), Choice()[m])
  {
  }

  lemma ArmMoves()
    ensures Moves(Choice(), START, Arm())
  {
  }

  lemma ArmDone()
    ensures forall m :: m in Arm().steps ==> DoneBy(Strings(), Choice(), START, Arm(), Seen(), m)
  {
  }

  lemma ArmUses()
    ensures forall n :: n in Seen().used ==> UseOf(Strings(), Compute, Choice(), {}, Arm(), Seen(), n)
  {
    assert Seen().used == {PARAM, 5, TEXT, CHOICE};
    hide UseOf, Choice, Arm, Seen;
    ChoiceTook();
    TextComputed();
    LeavesHold();
  }

  lemma LeavesHold()
    ensures UseOf(Strings(), Compute, Choice(), {}, Arm(), Seen(), PARAM)
    ensures UseOf(Strings(), Compute, Choice(), {}, Arm(), Seen(), 5)
  {
  }

  lemma ChoiceTook()
    ensures UseOf(Strings(), Compute, Choice(), {}, Arm(), Seen(), CHOICE)
  {
    assert Took(Choice(), {}, Arm(), Seen(), CHOICE);
  }

  lemma TextComputed()
    ensures UseOf(Strings(), Compute, Choice(), {}, Arm(), Seen(), TEXT)
  {
    assert Values(Seen().value, Choice()[TEXT].inputs) == [1];
  }

  lemma ArmConstants()
    ensures ConstantsHold(Choice(), {}, Seen()) && Values(Seen().value, Choice()[RETURN].inputs) == [7]
  {
  }

  lemma ArmFolds()
    ensures Justified(Folding, Strings(), CapturedSet(Choice()), Choice(), FoldTo(TEXT, 7, true))
  {
    assert CapturedSet(Choice()) == {};
    assert ConstantValues(Choice(), [5]) == [1];
  }

  lemma OnlyElse(k: Track, w: Store<int>)
    requires Runs(Strings(), Compute, FoldedTo(Choice(), TEXT, 7, true), START, {}, k, w) && RETURN in k.steps
    ensures w.value(PARAM) == 0 && Values(w.value, FoldedTo(Choice(), TEXT, 7, true)[RETURN].inputs) == [0]
  {
    hide Choice, FoldedTo, Moves, FreeConstant, UseOf, DoneBy, ConstantsHold, Strings;
    var after := FoldedTo(Choice(), TEXT, 7, true);
    CutGraph();
    CameByElse(k);
    assert DoneBy(Strings(), after, START, k, w, ELSE) && DoneBy(Strings(), after, START, k, w, RETURN);
    ElseTaken(k, w);
    ReturnReads(k, w);
    ElseSeen(k, w);
  }

  lemma ElseTaken(k: Track, w: Store<int>)
    requires DoneBy(Strings(), FoldedTo(Choice(), TEXT, 7, true), START, k, w, ELSE) && k.from(ELSE) == BRANCH
    ensures w.value(PARAM) == 0
  {
    CutGraph();
    hide Choice, FoldedTo;
  }

  lemma ReturnReads(k: Track, w: Store<int>)
    requires DoneBy(Strings(), FoldedTo(Choice(), TEXT, 7, true), START, k, w, RETURN)
    ensures CHOICE in w.used
  {
    CutGraph();
    hide Choice, FoldedTo;
    assert FoldedTo(Choice(), TEXT, 7, true)[RETURN].inputs[0] in w.used;
  }

  lemma ElseSeen(k: Track, w: Store<int>)
    requires UseOf(Strings(), Compute, FoldedTo(Choice(), TEXT, 7, true), {}, k, w, CHOICE) && k.way(JOIN) == 1
    requires ConstantsHold(FoldedTo(Choice(), TEXT, 7, true), {}, w)
    ensures |FoldedTo(Choice(), TEXT, 7, true)| == 11
    ensures Values(w.value, FoldedTo(Choice(), TEXT, 7, true)[RETURN].inputs) == [0]
  {
    CutGraph();
    hide Choice, FoldedTo, FreeConstant, Strings;
    assert Took(FoldedTo(Choice(), TEXT, 7, true), {}, k, w, CHOICE);
  }

  lemma CutGraph()
    ensures var after := FoldedTo(Choice(), TEXT, 7, true);
      && |after| == 11 && after[BRANCH] == Node(If, [PARAM], START, 0, 0) && after[ELSE].op == IfFalse
      && after[JOIN].op == Merge && after[8] == Node(Constant, [], ELSE, 0, 0) && FreeConstant(after, {}, 8)
      && after[CHOICE] == Node(Phi, [TEXT, 8], JOIN, 0, 0) && after[RETURN] == Node(Effect(1), [CHOICE], JOIN, 0, 0)
  {
  }

  lemma CameByElse(k: Track)
    requires Moves(FoldedTo(Choice(), TEXT, 7, true), START, k) && RETURN in k.steps
    ensures JOIN in k.steps && k.way(JOIN) == 1 && ELSE in k.steps && k.from(ELSE) == BRANCH
  {
    var after := FoldedTo(Choice(), TEXT, 7, true);
    assert StepOf(after, START, k, RETURN) && StepOf(after, START, k, JOIN);
    assert after[JOIN].inputs == [TEXT, ELSE] && TEXT !in k.steps;
    assert StepOf(after, START, k, ELSE);
  }
}
