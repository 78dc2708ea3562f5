/** What the optimised graph does: along a run every side effect that is left happens at its time and sees the values
    it saw in the original (src/compiler/IROptimizer.cpp:10-637). */
module OptimizedRuns {
  import opened OptimizerGraph
  import opened Optimizer
  import opened OptimizerMeaning
  import opened ExpressionSharing
  import opened ControlTracks
  import opened OptimizerTracks

  // ----- Runs -----

  /** The nodes whose values the run uses, and the values. */
  datatype Store<V> = Store(used: set<int>, value: int -> V)

  predicate HasValue(op: Op) {
    !op.Nop? && !op.Start? && !Joins(op) && !op.If? && !Side(op) && !op.TryBegin?
  }

  ghost predicate Reads<V>(nodes: seq<Node<V>>, w: Store<V>, m: nat)
    requires m < |nodes|
  {
    forall i :: 0 <= i < |nodes[m].inputs| ==> nodes[m].inputs[i] == NONE || nodes[m].inputs[i] in w.used
  }

  /** A pure expression, or an overloaded operator on values that it is defined for. */
  ghost predicate Determined<V>(lang: Language<V>, nodes: seq<Node<V>>, captured: set<int>, w: Store<V>, n: nat)
    requires n < |nodes|
  {
    var node := nodes[n];
    n !in captured && (node.op.Pure? ||
      (node.op.Effect? && (forall i :: 0 <= i < |node.inputs| ==> node.inputs[i] !in captured) &&
       lang.fold(node.op, Values(w.value, node.inputs)) != Keep))
  }

  ghost predicate Computes<V>(lang: Language<V>, eval: Evaluator<V>, nodes: seq<Node<V>>, captured: set<int>,
                              w: Store<V>, n: nat)
    requires n < |nodes|
  {
    Determined(lang, nodes, captured, w, n) ==>
      w.value(n) == eval(nodes[n].op, nodes[n].payload, Values(w.value, nodes[n].inputs))
  }

  /** The Phi got its value when control entered its join, from what was there by then. */
  ghost predicate Took<V>(nodes: seq<Node<V>>, captured: set<int>, k: Track, w: Store<V>, n: nat)
    requires n < |nodes|
  {
    var c := nodes[n].control;
    && c in k.steps && 0 <= c < |nodes| && Joins(nodes[c].op) && k.way(c) < |nodes[n].inputs|
    && var r := nodes[n].inputs[k.way(c)];
      && r in w.used && 0 <= r < |nodes| && w.value(n) == w.value(r)
      && (nodes[r].op.Phi? && r !in captured ==> k.time(nodes[r].control) < k.time(c))
  }

  ghost predicate UseOf<V>(lang: Language<V>, eval: Evaluator<V>, nodes: seq<Node<V>>, captured: set<int>, k: Track,
                           w: Store<V>, n: int) {
    0 <= n < |nodes| && HasValue(nodes[n].op) &&
    if nodes[n].op.Phi? then n !in captured ==> Took(nodes, captured, k, w, n)
    else !nodes[n].op.Constant? ==> Reads(nodes, w, n) && Computes(lang, eval, nodes, captured, w, n)
  }

  /** The side of a branch that control takes is the one that the condition selects. */
  ghost predicate Decides<V>(lang: Language<V>, nodes: seq<Node<V>>, k: Track, w: Store<V>, m: nat)
    requires m < |nodes|
  {
    var p := k.from(m);
    IsIf(nodes, p) && |nodes[p].inputs| == 1 && Side(nodes[m].op) ==>
      (lang.truthy(w.value(nodes[p].inputs[0])) <==> nodes[m].op.IfTrue?)
  }

  ghost predicate DoneBy<V>(lang: Language<V>, nodes: seq<Node<V>>, start: int, k: Track, w: Store<V>, m: int) {
    0 <= m < |nodes| && (m != start ==> Decides(lang, nodes, k, w, m)) && (!Joins(nodes[m].op) ==> Reads(nodes, w, m))
  }

  ghost predicate ConstantsHold<V>(nodes: seq<Node<V>>, captured: set<int>, w: Store<V>) {
    forall n :: FreeConstant(nodes, captured, n) ==> w.value(n) == nodes[n].value
  }

  /** A run of the graph that passes each control node at most once. Captured nodes may have any value. */
  ghost predicate Runs<V>(lang: Language<V>, eval: Evaluator<V>, nodes: seq<Node<V>>, start: int, captured: set<int>,
                          k: Track, w: Store<V>) {
    && Moves(nodes, start, k) && (forall m :: m in k.steps ==> DoneBy(lang, nodes, start, k, w, m))
    && (forall n :: n in w.used ==> UseOf(lang, eval, nodes, captured, k, w, n)) && ConstantsHold(nodes, captured, w)
  }

  /** Every step that is left sees the values it saw, and so does everything else that is used. */
  ghost predicate Sees<V>(before: seq<Node<V>>, w: Store<V>, after: seq<Node<V>>, k': Track, w': Store<V>) {
    && |after| == |before|
    && (forall m :: m in k'.steps && 0 <= m < |before| && !Joins(before[m].op) ==>
          SameOperands(before, w, after, w', m))
    && (forall m :: m in w.used && 0 <= m < |before| && !after[m].op.Nop? ==> SeesUse(before, w, after, w', m))
  }

  ghost predicate SeesUse<V>(before: seq<Node<V>>, w: Store<V>, after: seq<Node<V>>, w': Store<V>, m: nat)
    requires m < |before| == |after|
  {
    && m in w'.used && w'.value(m) == w.value(m)
    && (after[m].op == before[m].op && !after[m].op.Phi? && !after[m].op.Constant? ==>
          SameOperands(before, w, after, w', m))
  }

  ghost predicate SameOperands<V>(before: seq<Node<V>>, w: Store<V>, after: seq<Node<V>>, w': Store<V>, m: nat)
    requires m < |before| == |after|
  {
    after[m].payload == before[m].payload && Values(w'.value, after[m].inputs) == Values(w.value, before[m].inputs)
  }

  lemma SeesThrough<V>(a: seq<Node<V>>, u: Store<V>, j: Track, b: seq<Node<V>>, k: Track, v: Store<V>, c: seq<Node<V>>,
                       l: Track, w: Store<V>)
    requires Follows(a, j, b, k) && Follows(b, k, c, l) && l.steps <= k.steps <= j.steps
    requires OpsFall(a, b) && OpsFall(b, c) && Sees(a, u, b, k, v) && Sees(b, v, c, l, w)
    ensures OpsFall(a, c) && Sees(a, u, c, l, w)
  {
    hide Values, Conducts;
  }

  // ----- Folding -----

  /** The folded value is the one that the run computes. */
  lemma FoldedInRun<V(!new)>(lang: Language<V>, eval: Evaluator<V>, noted: set<int>, captured: set<int>,
                             nodes: seq<Node<V>>, n: nat, value: V, rewire: bool, k: Track, w: Store<V>)
    requires FoldsRight(lang, eval) && Justified(Folding, lang, noted, nodes, FoldTo(n, value, rewire))
    requires captured <= noted && ConstantsHold(nodes, captured, w) && n !in captured
    requires UseOf(lang, eval, nodes, captured, k, w, n)
    ensures w.value(n) == value
  {
    var inputs := nodes[n].inputs;
    assert FoldOf(lang, nodes, noted, n) == lang.fold(nodes[n].op, ConstantValues(nodes, inputs));
    forall i | 0 <= i < |inputs|
      ensures w.value(inputs[i]) == ConstantValues(nodes, inputs)[i] && inputs[i] !in captured
    {
      assert FreeConstant(nodes, noted, inputs[i]) && FreeConstant(nodes, captured, inputs[i]);
    }
    assert Values(w.value, inputs) == ConstantValues(nodes, inputs);
  }

  /** The same values for whatever the run uses. */
  ghost predicate Agrees<V>(w: Store<V>, w': Store<V>) {
    forall m :: m in w.used || m == NONE ==> w'.value(m) == w.value(m)
  }

  lemma ReadsSame<V>(nodes: seq<Node<V>>, w: Store<V>, w': Store<V>, m: nat)
    requires m < |nodes| && Reads(nodes, w, m) && Agrees(w, w')
    ensures Values(w'.value, nodes[m].inputs) == Values(w.value, nodes[m].inputs)
  {
    forall i | 0 <= i < |nodes[m].inputs| ensures w'.value(nodes[m].inputs[i]) == w.value(nodes[m].inputs[i]) { }
  }

  lemma FoldRuns<V(!new)>(lang: Language<V>, eval: Evaluator<V>, noted: set<int>, captured: set<int>, start: int,
                          nodes: seq<Node<V>>, n: nat, value: V, rewire: bool, k: Track, w: Store<V>)
    returns (w': Store<V>)
    requires FoldsRight(lang, eval) && Justified(Folding, lang, noted, nodes, FoldTo(n, value, rewire))
    requires Tidy(lang, start, nodes) && (rewire ==> FeedsNoJoin(nodes, n)) && captured <= noted && n < |nodes|
    requires Runs(lang, eval, nodes, start, captured, k, w)
    ensures var after, k' := FoldedTo(nodes, n, value, rewire), Bypass(k, {n}, nodes[n].control);
      Runs(lang, eval, after, start, captured, k', w') && Sees(nodes, w, after, k', w')
  {
    var after, k' := FoldedTo(nodes, n, value, rewire), Bypass(k, {n}, nodes[n].control);
    w' := Store(w.used, m => if m == n && n !in captured then value else w.value(m));
    FoldMoves(lang, noted, start, nodes, n, value, rewire, k);
    FoldedCarries(lang, noted, nodes, n, value, rewire);
    if n in w.used && n !in captured { FoldedInRun(lang, eval, noted, captured, nodes, n, value, rewire, k, w); }
    assert Agrees(w, w');
    FoldConstant(captured, nodes, n, value, rewire, w, w');
    hide Tidy, Moves, FoldsRight, Justified, FoldedTo, DoneBy, UseOf, ConstantsHold, Agrees, SeesUse, Values;
    forall m | m in k'.steps ensures DoneBy(lang, after, start, k', w', m) {
      FoldDone(lang, eval, captured, start, nodes, n, value, rewire, k, w, w', m);
    }
    forall m | m in w'.used ensures UseOf(lang, eval, after, captured, k', w', m) {
      FoldUse(lang, eval, captured, start, nodes, n, value, rewire, k, w, w', m);
    }
    forall m | m in w.used && 0 <= m < |nodes| ensures SeesUse(nodes, w, after, w', m) {
      FoldUse(lang, eval, captured, start, nodes, n, value, rewire, k, w, w', m);
    }
    forall m | m in k'.steps && 0 <= m < |nodes| && !Joins(nodes[m].op)
      ensures SameOperands(nodes, w, after, w', m)
    {
      FoldDone(lang, eval, captured, start, nodes, n, value, rewire, k, w, w', m);
    }
  }

  lemma FoldConstant<V>(captured: set<int>, nodes: seq<Node<V>>, n: nat, value: V, rewire: bool, w: Store<V>,
                        w': Store<V>)
    requires n < |nodes| && ConstantsHold(nodes, captured, w)
    requires forall m :: w'.value(m) == if m == n && n !in captured then value else w.value(m)
    ensures ConstantsHold(FoldedTo(nodes, n, value, rewire), captured, w')
  {
    var after := FoldedTo(nodes, n, value, rewire);
    forall m | FreeConstant(after, captured, m) ensures w'.value(m) == after[m].value {
      assert m == n || FreeConstant(nodes, captured, m);
    }
  }

  lemma FoldDone<V(!new)>(lang: Language<V>, eval: Evaluator<V>, captured: set<int>, start: int, nodes: seq<Node<V>>,
                          n: nat, value: V, rewire: bool, k: Track, w: Store<V>, w': Store<V>, m: int)
    requires n < |nodes| && Runs(lang, eval, nodes, start, captured, k, w) && m in k.steps && m != n
    requires Tidy(lang, start, nodes) && w'.used == w.used && Agrees(w, w')
    requires nodes[n].op.Effect? || nodes[n].op.Pure?
    ensures var after := FoldedTo(nodes, n, value, rewire);
      && DoneBy(lang, after, start, Bypass(k, {n}, nodes[n].control), w', m)
      && after[m].payload == nodes[m].payload
      && (!Joins(nodes[m].op) ==> Values(w'.value, after[m].inputs) == Values(w.value, nodes[m].inputs))
  {
    hide UseOf, ConstantsHold, Carries;
    assert DoneBy(lang, nodes, start, k, w, m);
    if !Joins(nodes[m].op) { ReadsSame(nodes, w, w', m); }
    if m != start {
      var p := k.from(m);
      assert StepOf(nodes, start, k, m) && StepOf(nodes, start, k, p) && DoneBy(lang, nodes, start, k, w, p);
      assert TidyNode(lang, nodes, nodes[n]);
      if p != n && IsIf(nodes, p) && |nodes[p].inputs| == 1 {
        var c := nodes[p].inputs[0];
        assert Reads(nodes, w, p) && w'.value(c) == w.value(c);
      }
    }
  }

  lemma FoldUse<V(!new)>(lang: Language<V>, eval: Evaluator<V>, captured: set<int>, start: int, nodes: seq<Node<V>>,
                         n: nat, value: V, rewire: bool, k: Track, w: Store<V>, w': Store<V>, m: int)
    requires n < |nodes| && Runs(lang, eval, nodes, start, captured, k, w) && m in w.used
    requires w'.used == w.used && Agrees(w, w')
    requires nodes[n].op.Effect? || nodes[n].op.Pure?
    ensures var after := FoldedTo(nodes, n, value, rewire);
      && UseOf(lang, eval, after, captured, Bypass(k, {n}, nodes[n].control), w', m)
      && SeesUse(nodes, w, after, w', m)
  {
    hide Moves, DoneBy, ConstantsHold, Values;
    var after := FoldedTo(nodes, n, value, rewire);
    assert UseOf(lang, eval, nodes, captured, k, w, m);
    if nodes[m].op.Phi? {
      if m !in captured {
        var r := nodes[m].inputs[k.way(nodes[m].control)];
        assert Took(nodes, captured, k, w, m) && UseOf(lang, eval, nodes, captured, k, w, r);
        assert nodes[r].op.Phi? && r !in captured ==> Took(nodes, captured, k, w, r);
      }
    } else if m != n && !nodes[m].op.Constant? {
      ReadsSame(nodes, w, w', m);
    }
  }

  // ----- Sending a value to another node -----

  /** `to` has the value of `n`, and had it by then. */
  ghost predicate StandsIn<V>(nodes: seq<Node<V>>, captured: set<int>, k: Track, w: Store<V>, n: nat, to: int)
    requires n < |nodes|
  {
    n !in captured && (n in w.used ==>
      && 0 <= to < |nodes| && to in w.used && w.value(to) == w.value(n)
      && (nodes[to].op.Phi? && to !in captured ==>
            nodes[n].op.Phi? && k.time(nodes[to].control) < k.time(nodes[n].control)))
  }

  function Without<V>(w: Store<V>, n: int): Store<V> {
    Store(w.used - {n}, w.value)
  }

  lemma ForwardReads<V>(captured: set<int>, nodes: seq<Node<V>>, n: nat, to: int, k: Track, w: Store<V>, m: nat)
    requires DataForward(nodes, n, to) && StandsIn(nodes, captured, k, w, n, to)
    requires m < |nodes| && m != n && Reads(nodes, w, m)
    ensures var after := Forwarded(nodes, n, to);
      Reads(after, Without(w, n), m) && Values(w.value, after[m].inputs) == Values(w.value, nodes[m].inputs)
  {
    var after := Forwarded(nodes, n, to);
    assert after[m] == Rewired(nodes[m], n, to);
    assert n in w.used ==> to in Without(w, n).used;
    forall i | 0 <= i < |nodes[m].inputs|
      ensures w.value(after[m].inputs[i]) == w.value(nodes[m].inputs[i])
      ensures after[m].inputs[i] == NONE || after[m].inputs[i] in Without(w, n).used
    {
      var r := nodes[m].inputs[i];
      assert r == NONE || r in w.used;
    }
  }

  lemma ForwardUse<V>(lang: Language<V>, eval: Evaluator<V>, captured: set<int>, start: int, nodes: seq<Node<V>>,
                      n: nat, to: int, k: Track, w: Store<V>, m: int)
    requires DataForward(nodes, n, to) && StandsIn(nodes, captured, k, w, n, to)
    requires Runs(lang, eval, nodes, start, captured, k, w) && m in w.used && m != n
    ensures var after := Forwarded(nodes, n, to);
      UseOf(lang, eval, after, captured, k, Without(w, n), m) && SeesUse(nodes, w, after, Without(w, n), m)
  {
    hide Moves, DoneBy, ConstantsHold, Values, Forwarded, Without;
    assert UseOf(lang, eval, nodes, captured, k, w, m);
    if nodes[m].op.Phi? && m !in captured {
      ForwardPhiUse(lang, eval, captured, start, nodes, n, to, k, w, m);
    }
    ForwardedNode(nodes, n, to, w, m);
    if !nodes[m].op.Phi? && !nodes[m].op.Constant? {
      ForwardReads(captured, nodes, n, to, k, w, m);
      ForwardUncaptured(captured, nodes, n, to, m);
    }
  }

  lemma ForwardedNode<V>(nodes: seq<Node<V>>, n: nat, to: int, w: Store<V>, m: nat)
    requires n < |nodes| && n != to && m < |nodes| && m != n
    ensures Forwarded(nodes, n, to)[m] == Rewired(nodes[m], n, to)
    ensures Without(w, n).value == w.value && (m in Without(w, n).used <==> m in w.used)
  {
  }

  lemma ForwardUncaptured<V>(captured: set<int>, nodes: seq<Node<V>>, n: nat, to: int, m: nat)
    requires n < |nodes| && m < |nodes| && n !in captured
    ensures var refs, refs' := nodes[m].inputs, SubstAll(nodes[m].inputs, n, to);
      (forall i :: 0 <= i < |refs'| ==> refs'[i] !in captured) ==> forall i :: 0 <= i < |refs| ==> refs[i] !in captured
  {
    var refs, refs' := nodes[m].inputs, SubstAll(nodes[m].inputs, n, to);
    forall i | 0 <= i < |refs| && refs'[i] !in captured ensures refs[i] !in captured { }
  }

  /** A Phi that took the value of `n` took that of `to`. */
  lemma ForwardPhiUse<V>(lang: Language<V>, eval: Evaluator<V>, captured: set<int>, start: int, nodes: seq<Node<V>>,
                         n: nat, to: int, k: Track, w: Store<V>, m: nat)
    requires DataForward(nodes, n, to) && StandsIn(nodes, captured, k, w, n, to)
    requires Runs(lang, eval, nodes, start, captured, k, w) && m in w.used && m != n
    requires m < |nodes| && nodes[m].op.Phi? && m !in captured
    ensures Took(Forwarded(nodes, n, to), captured, k, Without(w, n), m)
  {
    hide DoneBy, ConstantsHold, Computes, Reads;
    var after, c := Forwarded(nodes, n, to), nodes[m].control;
    assert UseOf(lang, eval, nodes, captured, k, w, m) && Took(nodes, captured, k, w, m);
    var r := nodes[m].inputs[k.way(c)];
    var r' := Subst(r, n, to);
    assert StepOf(nodes, start, k, c) && c != n;
    assert after[m] == Rewired(nodes[m], n, to) && after[c] == Rewired(nodes[c], n, to);
    assert after[m].inputs[k.way(c)] == r' && r' in Without(w, n).used;
    assert UseOf(lang, eval, nodes, captured, k, w, r) && UseOf(lang, eval, nodes, captured, k, w, r');
    if nodes[r'].op.Phi? && r' !in captured {
      assert Took(nodes, captured, k, w, r') && StepOf(nodes, start, k, nodes[r'].control);
      assert after[r'] == Rewired(nodes[r'], n, to) && nodes[r'].control != n;
    }
  }

  lemma ForwardDone<V>(lang: Language<V>, eval: Evaluator<V>, captured: set<int>, start: int, nodes: seq<Node<V>>,
                       n: nat, to: int, k: Track, w: Store<V>, m: int)
    requires DataForward(nodes, n, to) && StandsIn(nodes, captured, k, w, n, to)
    requires Runs(lang, eval, nodes, start, captured, k, w) && m in k.steps
    ensures var after := Forwarded(nodes, n, to);
      && DoneBy(lang, after, start, k, Without(w, n), m) && 0 <= m < |nodes| && m != n
      && after[m].payload == nodes[m].payload
      && (!Joins(nodes[m].op) ==> Values(w.value, after[m].inputs) == Values(w.value, nodes[m].inputs))
  {
    hide UseOf, ConstantsHold, Values;
    var after := Forwarded(nodes, n, to);
    assert DoneBy(lang, nodes, start, k, w, m) && StepOf(nodes, start, k, m);
    assert after[m] == Rewired(nodes[m], n, to);
    if !Joins(nodes[m].op) { ForwardReads(captured, nodes, n, to, k, w, m); }
    if m != start {
      var p := k.from(m);
      assert StepOf(nodes, start, k, p) && DoneBy(lang, nodes, start, k, w, p);
      assert after[p] == Rewired(nodes[p], n, to);
      if IsIf(nodes, p) && |nodes[p].inputs| == 1 {
        ForwardReads(captured, nodes, n, to, k, w, p);
        assert Values(w.value, after[p].inputs)[0] == Values(w.value, nodes[p].inputs)[0];
      }
    }
  }

  lemma ForwardRuns<V>(lang: Language<V>, eval: Evaluator<V>, captured: set<int>, start: int, nodes: seq<Node<V>>,
                       n: nat, to: int, k: Track, w: Store<V>)
    requires DataForward(nodes, n, to) && StandsIn(nodes, captured, k, w, n, to)
    requires Runs(lang, eval, nodes, start, captured, k, w)
    ensures var after, w' := Forwarded(nodes, n, to), Without(w, n);
      Runs(lang, eval, after, start, captured, k, w') && Sees(nodes, w, after, k, w') && OpsFall(nodes, after)
  {
    var after, w' := Forwarded(nodes, n, to), Without(w, n);
    ForwardMoves(start, nodes, n, to, k);
    assert ConstantsHold(after, captured, w') by {
      forall m | FreeConstant(after, captured, m) ensures w'.value(m) == after[m].value {
        assert m != n && FreeConstant(nodes, captured, m);
      }
    }
    assert OpsFall(nodes, after) && after[n].op.Nop?;
    hide Moves, DoneBy, UseOf, ConstantsHold, SeesUse, Values, Forwarded, StandsIn, OpsFall;
    forall m | m in k.steps
      ensures DoneBy(lang, after, start, k, w', m) && 0 <= m < |nodes| && after[m].payload == nodes[m].payload
      ensures !Joins(nodes[m].op) ==> Values(w.value, after[m].inputs) == Values(w.value, nodes[m].inputs)
    {
      ForwardDone(lang, eval, captured, start, nodes, n, to, k, w, m);
    }
    forall m | m in w.used && m != n
      ensures UseOf(lang, eval, after, captured, k, w', m) && 0 <= m < |nodes| && SeesUse(nodes, w, after, w', m)
    {
      UseInRange(lang, eval, nodes, captured, k, w, m);
      ForwardUse(lang, eval, captured, start, nodes, n, to, k, w, m);
    }
  }

  lemma UseInRange<V>(lang: Language<V>, eval: Evaluator<V>, nodes: seq<Node<V>>, captured: set<int>, k: Track,
                      w: Store<V>, m: int)
    requires UseOf(lang, eval, nodes, captured, k, w, m)
    ensures 0 <= m < |nodes| && HasValue(nodes[m].op)
  {
  }

  // ----- One more value -----

  /** The run may as well use `to`, which it did not use. */
  ghost predicate Admits<V>(nodes: seq<Node<V>>, captured: set<int>, w: Store<V>, to: nat, w': Store<V>) {
    && w'.used == w.used + {to} && (forall m :: m == to || w'.value(m) == w.value(m)) && to !in w.used
    && (FreeConstant(nodes, captured, to) ==> w'.value(to) == w.value(to))
  }

  lemma AdmitUse<V>(lang: Language<V>, eval: Evaluator<V>, captured: set<int>, nodes: seq<Node<V>>, k: Track,
                    w: Store<V>, to: nat, w': Store<V>, m: int)
    requires Admits(nodes, captured, w, to, w') && UseOf(lang, eval, nodes, captured, k, w, m) && m in w.used
    ensures UseOf(lang, eval, nodes, captured, k, w', m)
    ensures !nodes[m].op.Phi? && !nodes[m].op.Constant? ==>
      Values(w'.value, nodes[m].inputs) == Values(w.value, nodes[m].inputs)
  {
    hide Values;
    assert Agrees(w, w');
    if !nodes[m].op.Phi? && !nodes[m].op.Constant? { ReadsSame(nodes, w, w', m); }
  }

  lemma AdmitDone<V>(lang: Language<V>, eval: Evaluator<V>, captured: set<int>, start: int, nodes: seq<Node<V>>,
                     k: Track, w: Store<V>, to: nat, w': Store<V>, m: int)
    requires Admits(nodes, captured, w, to, w') && Runs(lang, eval, nodes, start, captured, k, w) && m in k.steps
    ensures DoneBy(lang, nodes, start, k, w', m)
    ensures !Joins(nodes[m].op) ==> Values(w'.value, nodes[m].inputs) == Values(w.value, nodes[m].inputs)
  {
    hide UseOf, Values;
    assert Agrees(w, w') && DoneBy(lang, nodes, start, k, w, m) && StepOf(nodes, start, k, m);
    if !Joins(nodes[m].op) { ReadsSame(nodes, w, w', m); }
    if m != start {
      var p := k.from(m);
      assert DoneBy(lang, nodes, start, k, w, p);
      if IsIf(nodes, p) && |nodes[p].inputs| == 1 {
        var c := nodes[p].inputs[0];
        assert Reads(nodes, w, p) && w'.value(c) == w.value(c);
      }
    }
  }

  lemma AdmitRuns<V>(lang: Language<V>, eval: Evaluator<V>, captured: set<int>, start: int, nodes: seq<Node<V>>,
                     k: Track, w: Store<V>, to: nat, w': Store<V>)
    requires Admits(nodes, captured, w, to, w') && Runs(lang, eval, nodes, start, captured, k, w)
    requires UseOf(lang, eval, nodes, captured, k, w', to)
    ensures Runs(lang, eval, nodes, start, captured, k, w')
  {
    assert ConstantsHold(nodes, captured, w') by {
      forall m | FreeConstant(nodes, captured, m) ensures w'.value(m) == nodes[m].value { }
    }
    assert forall m :: m in w'.used <==> m in w.used || m == to;
    hide Moves, DoneBy, UseOf, ConstantsHold, Admits;
    forall m | m in k.steps ensures DoneBy(lang, nodes, start, k, w', m) {
      AdmitDone(lang, eval, captured, start, nodes, k, w, to, w', m);
    }
    forall m | m in w'.used ensures UseOf(lang, eval, nodes, captured, k, w', m) {
      if m != to { AdmitUse(lang, eval, captured, nodes, k, w, to, w', m); }
    }
  }

  /** What was seen with one more value was seen without it. */
  lemma SeesLess<V>(lang: Language<V>, eval: Evaluator<V>, captured: set<int>, start: int, nodes: seq<Node<V>>,
                    k: Track, w: Store<V>, to: nat, w1: Store<V>, after: seq<Node<V>>, w': Store<V>)
    requires Admits(nodes, captured, w, to, w1) && Runs(lang, eval, nodes, start, captured, k, w)
    requires Sees(nodes, w1, after, k, w')
    ensures Sees(nodes, w, after, k, w')
  {
    assert forall m :: m in w.used ==> m in w1.used && w1.value(m) == w.value(m);
    hide Moves, DoneBy, UseOf, ConstantsHold, Admits, Values;
    forall m | m in k.steps && 0 <= m < |nodes| && !Joins(nodes[m].op)
      ensures SameOperands(nodes, w, after, w', m)
    {
      AdmitDone(lang, eval, captured, start, nodes, k, w, to, w1, m);
    }
    forall m | m in w.used && 0 <= m < |nodes| && !after[m].op.Nop? ensures SeesUse(nodes, w, after, w', m) {
      AdmitUse(lang, eval, captured, nodes, k, w, to, w1, m);
      assert SeesUse(nodes, w1, after, w', m);
    }
  }

  // ----- Sharing and simplifying -----

  /** A Phi whose inputs that count are all `to` took `to`. */
  lemma SolePhi<V>(lang: Language<V>, eval: Evaluator<V>, captured: set<int>, start: int, nodes: seq<Node<V>>, n: nat,
                   to: nat, k: Track, w: Store<V>)
    requires Runs(lang, eval, nodes, start, captured, k, w) && 0 <= start < |nodes| && nodes[start].op.Start?
    requires n < |nodes| && nodes[n].op.Phi? && n !in captured && Sole(nodes, n, to) && to < |nodes|
    ensures StandsIn(nodes, captured, k, w, n, to)
  {
    if n in w.used {
      var c := nodes[n].control;
      assert UseOf(lang, eval, nodes, captured, k, w, n) && Took(nodes, captured, k, w, n);
      assert StepOf(nodes, start, k, c) && StepOf(nodes, start, k, k.from(c));
      UseInRange(lang, eval, nodes, captured, k, w, nodes[n].inputs[k.way(c)]);
      assert Counts(nodes, n, k.way(c));
    }
  }

  lemma ConstantRuns<V(!new)>(lang: Language<V>, eval: Evaluator<V>, noted: set<int>, captured: set<int>, start: int,
                              nodes: seq<Node<V>>, n: nat, to: nat, k: Track, w: Store<V>) returns (w': Store<V>)
    requires FoldsRight(lang, eval) && SameConstant(lang, nodes, noted, to, n) && to != n && captured <= noted
    requires Runs(lang, eval, nodes, start, captured, k, w)
    ensures var after := Forwarded(nodes, n, to);
      Runs(lang, eval, after, start, captured, k, w') && Sees(nodes, w, after, k, w') && OpsFall(nodes, after)
  {
    assert FreeConstant(nodes, captured, n) && FreeConstant(nodes, captured, to);
    assert w.value(n) == nodes[n].value == nodes[to].value == w.value(to);
    var w1 := Store(w.used + {to}, w.value);
    if to in w.used {
      ForwardRuns(lang, eval, captured, start, nodes, n, to, k, w);
      w' := Without(w, n);
    } else {
      assert Admits(nodes, captured, w, to, w1);
      AdmitRuns(lang, eval, captured, start, nodes, k, w, to, w1);
      ForwardRuns(lang, eval, captured, start, nodes, n, to, k, w1);
      w' := Without(w1, n);
      SeesLess(lang, eval, captured, start, nodes, k, w, to, w1, Forwarded(nodes, n, to), w');
    }
  }

  lemma ExpressionRuns<V(!new)>(lang: Language<V>, eval: Evaluator<V>, captured: set<int>, start: int,
                                nodes: seq<Node<V>>, n: nat, to: nat, k: Track, w: Store<V>) returns (w': Store<V>)
    requires SameExpression(nodes, to, n) && to < n && n !in captured && to !in captured
    requires Runs(lang, eval, nodes, start, captured, k, w)
    ensures var after := Forwarded(nodes, n, to);
      Runs(lang, eval, after, start, captured, k, w') && Sees(nodes, w, after, k, w') && OpsFall(nodes, after)
  {
    if n !in w.used || to in w.used {
      assert n in w.used ==> UseOf(lang, eval, nodes, captured, k, w, n);
      assert to in w.used ==> UseOf(lang, eval, nodes, captured, k, w, to);
      ForwardRuns(lang, eval, captured, start, nodes, n, to, k, w);
      w' := Without(w, n);
    } else {
      assert UseOf(lang, eval, nodes, captured, k, w, n);
      var w1 := Store(w.used + {to}, m => if m == to then w.value(n) else w.value(m));
      assert Admits(nodes, captured, w, to, w1) && Agrees(w, w1);
      ReadsSame(nodes, w, w1, n);
      assert UseOf(lang, eval, nodes, captured, k, w1, to);
      AdmitRuns(lang, eval, captured, start, nodes, k, w, to, w1);
      ForwardRuns(lang, eval, captured, start, nodes, n, to, k, w1);
      w' := Without(w1, n);
      SeesLess(lang, eval, captured, start, nodes, k, w, to, w1, Forwarded(nodes, n, to), w');
    }
  }

  /** An expression that nothing reads may go to a captured one. */
  lemma UnreadRuns<V>(lang: Language<V>, eval: Evaluator<V>, captured: set<int>, start: int, nodes: seq<Node<V>>,
                      n: nat, to: nat, k: Track, w: Store<V>) returns (w': Store<V>)
    requires SameExpression(nodes, to, n) && to < n && n !in captured && !ReadElsewhere(nodes, n)
    requires Runs(lang, eval, nodes, start, captured, k, w)
    ensures var after := Forwarded(nodes, n, to);
      Runs(lang, eval, after, start, captured, k, w') && Sees(nodes, w, after, k, w') && OpsFall(nodes, after)
  {
    var w1, after := Without(w, n), Forwarded(nodes, n, to);
    UnreadDropped(lang, eval, captured, start, nodes, n, k, w);
    ForwardRuns(lang, eval, captured, start, nodes, n, to, k, w1);
    w' := Without(w1, n);
    assert after[n].op.Nop?;
    hide Runs, Moves, Values, Forwarded;
    forall m | m in w.used && 0 <= m < |nodes| && !after[m].op.Nop? ensures SeesUse(nodes, w, after, w', m) {
      assert m != n && m in w1.used && SeesUse(nodes, w1, after, w', m);
    }
  }

  lemma UnreadDropped<V>(lang: Language<V>, eval: Evaluator<V>, captured: set<int>, start: int, nodes: seq<Node<V>>,
                         n: nat, k: Track, w: Store<V>)
    requires n < |nodes| && nodes[n].op.Pure? && !ReadElsewhere(nodes, n)
    requires Runs(lang, eval, nodes, start, captured, k, w)
    ensures Runs(lang, eval, nodes, start, captured, k, Without(w, n))
  {
    var w' := Without(w, n);
    assert forall m :: 0 <= m < |nodes| && m != n && !nodes[m].op.Nop? ==> n !in nodes[m].inputs;
    assert ConstantsHold(nodes, captured, w');
    hide Moves, ConstantsHold, ReadElsewhere;
    forall m | m in k.steps ensures DoneBy(lang, nodes, start, k, w', m) {
      assert DoneBy(lang, nodes, start, k, w, m) && StepOf(nodes, start, k, m);
    }
    forall m | m in w'.used ensures UseOf(lang, eval, nodes, captured, k, w', m) {
      assert UseOf(lang, eval, nodes, captured, k, w, m);
    }
  }

  // ----- Sending control to another node -----

  /** Uses of `x` go to `u`; nothing else changes but the nodes `erased`, which have no values. */
  ghost predicate Rerouted<V>(nodes: seq<Node<V>>, after: seq<Node<V>>, x: int, u: int, erased: set<int>) {
    && |after| == |nodes| && x in erased
    && forall m :: 0 <= m < |nodes| ==> if m in erased then !HasValue(nodes[m].op) && !HasValue(after[m].op)
                                        else after[m] == Rewired(nodes[m], x, u)
  }

  /** The Phis that the run uses keep their joins, and no branch gets a new way out. */
  ghost predicate Reroutes<V>(nodes: seq<Node<V>>, start: int, captured: set<int>, k: Track, w: Store<V>,
                              after: seq<Node<V>>, x: int, k': Track, erased: set<int>) {
    && k'.steps <= k.steps && k'.steps !! erased && k'.way == k.way && k'.time == k.time
    && (forall p :: p in w.used && 0 <= p < |nodes| && nodes[p].op.Phi? && p !in captured ==>
          nodes[p].control in k'.steps)
    && (forall m :: m in k'.steps && m != start ==>
          (k'.from(m) == k.from(m) && k.from(m) !in erased) || !IsIf(after, k'.from(m)))
  }

  lemma RerouteReads<V>(nodes: seq<Node<V>>, w: Store<V>, after: seq<Node<V>>, x: int, u: int, erased: set<int>, m: nat)
    requires Rerouted(nodes, after, x, u, erased) && m < |nodes| && m !in erased && Reads(nodes, w, m)
    requires x !in w.used && x != NONE
    ensures after[m].inputs == nodes[m].inputs && Reads(after, w, m)
  {
    assert after[m] == Rewired(nodes[m], x, u);
    forall i | 0 <= i < |nodes[m].inputs| ensures after[m].inputs[i] == nodes[m].inputs[i] {
      assert nodes[m].inputs[i] == NONE || nodes[m].inputs[i] in w.used;
    }
  }

  lemma RerouteUse<V>(lang: Language<V>, eval: Evaluator<V>, captured: set<int>, start: int, nodes: seq<Node<V>>,
                      k: Track, w: Store<V>, after: seq<Node<V>>, x: int, u: int, erased: set<int>, k': Track, m: int)
    requires Rerouted(nodes, after, x, u, erased) && Reroutes(nodes, start, captured, k, w, after, x, k', erased)
    requires Runs(lang, eval, nodes, start, captured, k, w) && m in w.used && x != NONE && x !in w.used
    ensures 0 <= m < |nodes| && m !in erased && UseOf(lang, eval, after, captured, k', w, m)
    ensures SeesUse(nodes, w, after, w, m)
  {
    hide Moves, DoneBy, ConstantsHold, Values;
    assert UseOf(lang, eval, nodes, captured, k, w, m);
    assert after[m] == Rewired(nodes[m], x, u);
    if nodes[m].op.Phi? {
      if m !in captured {
        var c := nodes[m].control;
        assert Took(nodes, captured, k, w, m) && after[c] == Rewired(nodes[c], x, u);
        var r := nodes[m].inputs[k.way(c)];
        assert UseOf(lang, eval, nodes, captured, k, w, r) && after[r] == Rewired(nodes[r], x, u);
        assert nodes[r].op.Phi? && r !in captured ==> nodes[r].control in k'.steps;
      }
    } else if !nodes[m].op.Constant? {
      RerouteReads(nodes, w, after, x, u, erased, m);
    }
  }

  lemma RerouteDone<V>(lang: Language<V>, eval: Evaluator<V>, captured: set<int>, start: int, nodes: seq<Node<V>>,
                       k: Track, w: Store<V>, after: seq<Node<V>>, x: int, u: int, erased: set<int>, k': Track, m: int)
    requires Rerouted(nodes, after, x, u, erased) && Reroutes(nodes, start, captured, k, w, after, x, k', erased)
    requires Runs(lang, eval, nodes, start, captured, k, w) && m in k'.steps && x != NONE && x !in w.used
    ensures 0 <= m < |nodes| && DoneBy(lang, after, start, k', w, m) && after[m].payload == nodes[m].payload
    ensures !Joins(nodes[m].op) ==> Values(w.value, after[m].inputs) == Values(w.value, nodes[m].inputs)
  {
    hide UseOf, ConstantsHold, Values;
    assert DoneBy(lang, nodes, start, k, w, m) && StepOf(nodes, start, k, m);
    assert after[m] == Rewired(nodes[m], x, u);
    if !Joins(nodes[m].op) { RerouteReads(nodes, w, after, x, u, erased, m); }
    if m != start && k'.from(m) == k.from(m) && k.from(m) !in erased {
      var p := k.from(m);
      assert DoneBy(lang, nodes, start, k, w, p) && StepOf(nodes, start, k, p);
      assert after[p] == Rewired(nodes[p], x, u);
      if IsIf(nodes, p) { RerouteReads(nodes, w, after, x, u, erased, p); }
    }
  }

  lemma RerouteRuns<V>(lang: Language<V>, eval: Evaluator<V>, captured: set<int>, start: int, nodes: seq<Node<V>>,
                       k: Track, w: Store<V>, after: seq<Node<V>>, x: int, u: int, erased: set<int>, k': Track)
    requires Rerouted(nodes, after, x, u, erased) && Reroutes(nodes, start, captured, k, w, after, x, k', erased)
    requires Runs(lang, eval, nodes, start, captured, k, w) && 0 <= x < |nodes| && Moves(after, start, k')
    ensures Runs(lang, eval, after, start, captured, k', w) && Sees(nodes, w, after, k', w)
  {
    if x in w.used { UseInRange(lang, eval, nodes, captured, k, w, x); }
    assert ConstantsHold(after, captured, w) by {
      forall m | FreeConstant(after, captured, m) ensures w.value(m) == after[m].value {
        assert m !in erased && after[m] == Rewired(nodes[m], x, u) && FreeConstant(nodes, captured, m);
      }
    }
    hide Moves, DoneBy, UseOf, ConstantsHold, SeesUse, Values, Rerouted, Reroutes;
    RerouteSize(nodes, after, x, u, erased);
    forall m | m in k'.steps
      ensures 0 <= m < |nodes| && DoneBy(lang, after, start, k', w, m) && after[m].payload == nodes[m].payload
      ensures !Joins(nodes[m].op) ==> Values(w.value, after[m].inputs) == Values(w.value, nodes[m].inputs)
    {
      RerouteDone(lang, eval, captured, start, nodes, k, w, after, x, u, erased, k', m);
    }
    forall m | m in w.used
      ensures 0 <= m < |nodes| && UseOf(lang, eval, after, captured, k', w, m) && SeesUse(nodes, w, after, w, m)
    {
      RerouteUse(lang, eval, captured, start, nodes, k, w, after, x, u, erased, k', m);
    }
  }

  lemma RerouteSize<V>(nodes: seq<Node<V>>, after: seq<Node<V>>, x: int, u: int, erased: set<int>)
    requires Rerouted(nodes, after, x, u, erased)
    ensures |after| == |nodes| && (0 <= x < |nodes| ==> !HasValue(nodes[x].op))
  {
  }

  // ----- Taking a side -----

  /** The condition is a constant, so control does not take the other side. */
  lemma OtherSide<V>(lang: Language<V>, eval: Evaluator<V>, noted: set<int>, captured: set<int>, start: int,
                     nodes: seq<Node<V>>, n: nat, taken: nat, untaken: nat, k: Track, w: Store<V>)
    requires Justified(Branching, lang, noted, nodes, TakeSide(n, taken, untaken)) && captured <= noted
    requires Runs(lang, eval, nodes, start, captured, k, w) && 0 <= start < |nodes| && nodes[start].op.Start?
    ensures untaken !in k.steps
  {
    if untaken in k.steps {
      assert StepOf(nodes, start, k, untaken) && DoneBy(lang, nodes, start, k, w, untaken);
      assert FreeConstant(nodes, captured, nodes[n].inputs[0]);
    }
  }

  lemma TakeReroutes<V>(nodes: seq<Node<V>>, n: nat, taken: nat, untaken: nat)
    requires n < |nodes| && taken < |nodes| && untaken < |nodes|
    requires nodes[n].op.If? && Side(nodes[taken].op) && Side(nodes[untaken].op) && untaken != taken
    ensures Rerouted(nodes, Rewritten(nodes, TakeSide(n, taken, untaken)), taken, nodes[n].control, {taken, untaken, n})
  {
    var after, u := Rewritten(nodes, TakeSide(n, taken, untaken)), nodes[n].control;
    forall m | 0 <= m < |nodes| && m !in {taken, untaken, n} ensures after[m] == Rewired(nodes[m], taken, u) {
      if u == taken { assert Rewired(nodes[m], taken, u).inputs == nodes[m].inputs; }
    }
  }

  /** A step that came from the taken side comes from what controlled the branch, which is no branch. */
  lemma TakeFrom<V(!new)>(lang: Language<V>, noted: set<int>, start: int, nodes: seq<Node<V>>, n: nat, taken: nat,
                          untaken: nat, k: Track, m: int)
    requires Justified(Branching, lang, noted, nodes, TakeSide(n, taken, untaken)) && Tidy(lang, start, nodes)
    requires n < |nodes| && Moves(nodes, start, k) && untaken !in k.steps
    requires m in k.steps && m !in {taken, n} && m != start
    ensures var after, k' := Rewritten(nodes, TakeSide(n, taken, untaken)), Bypass(k, {taken, n}, nodes[n].control);
      (k'.from(m) == k.from(m) && k.from(m) !in {taken, untaken, n}) || !IsIf(after, k'.from(m))
  {
    assert StepOf(nodes, start, k, m) && TidyNode(lang, nodes, nodes[n]);
    if k.from(m) == n { OnlySide(lang, start, nodes, n, taken, untaken, k, m); }
  }

  lemma TakeRuns<V(!new)>(lang: Language<V>, eval: Evaluator<V>, noted: set<int>, captured: set<int>, start: int,
                          nodes: seq<Node<V>>, n: nat, taken: nat, untaken: nat, k: Track, w: Store<V>)
    requires Justified(Branching, lang, noted, nodes, TakeSide(n, taken, untaken)) && captured <= noted && n < |nodes|
    requires Runs(lang, eval, nodes, start, captured, k, w) && Tidy(lang, start, nodes)
    ensures var after, k' := Rewritten(nodes, TakeSide(n, taken, untaken)), Bypass(k, {taken, n}, nodes[n].control);
      Runs(lang, eval, after, start, captured, k', w) && Sees(nodes, w, after, k', w)
    ensures untaken !in k.steps
  {
    var after, k' := Rewritten(nodes, TakeSide(n, taken, untaken)), Bypass(k, {taken, n}, nodes[n].control);
    var erased := {taken, untaken, n};
    OtherSide(lang, eval, noted, captured, start, nodes, n, taken, untaken, k, w);
    TakeMoves(lang, noted, start, nodes, n, taken, untaken, k);
    assert Rerouted(nodes, after, taken, nodes[n].control, erased) by { TakeReroutes(nodes, n, taken, untaken); }
    forall m | m in k'.steps && m != start
      ensures (k'.from(m) == k.from(m) && k.from(m) !in erased) || !IsIf(after, k'.from(m))
    {
      TakeFrom(lang, noted, start, nodes, n, taken, untaken, k, m);
    }
    forall p | p in w.used && 0 <= p < |nodes| && nodes[p].op.Phi? && p !in captured
      ensures nodes[p].control in k'.steps
    {
      assert UseOf(lang, eval, nodes, captured, k, w, p);
    }
    hide Rerouted, Moves, Tidy, Runs, Rewritten, Justified, UseOf;
    assert Reroutes(nodes, start, captured, k, w, after, taken, k', erased);
    RerouteRuns(lang, eval, captured, start, nodes, k, w, after, taken, nodes[n].control, erased, k');
  }

  // ----- Dropping a merge -----

  /** Where several ways come in from `first`, each Phi gets the same along all of them. */
  ghost predicate WaysAgree<V>(nodes: seq<Node<V>>, ways: seq<int>, phis: seq<nat>, first: nat, index: nat) {
    forall p, i :: p in phis && p < |nodes| && 0 <= i < |ways| && ways[i] == first && HasBoth(nodes[p], i, index) ==>
      nodes[p].inputs[i] == nodes[p].inputs[index]
  }

  predicate HasBoth<V>(node: Node<V>, i: nat, index: nat) {
    i < |node.inputs| && index < |node.inputs|
  }

  lemma WaysStillAgree<V>(nodes: seq<Node<V>>, ways: seq<int>, phis: seq<nat>, first: nat, index: nat, phi: nat, d: int)
    requires WaysAgree(nodes, ways, phis, first, index)
    ensures WaysAgree(Forwarded(nodes, phi, d), ways, phis, first, index)
  {
    var after := Forwarded(nodes, phi, d);
    if phi != d {
      forall p, i | p in phis && p < |nodes| && 0 <= i < |ways| && ways[i] == first && HasBoth(after[p], i, index)
        ensures after[p].inputs[i] == after[p].inputs[index]
      {
        assert p != phi && after[p] == Rewired(nodes[p], phi, d);
      }
    }
  }

  predicate PhiOrGone<V>(node: Node<V>, n: nat) {
    if node.op.Nop? then node.inputs == [] else node.op.Phi? && node.control == n
  }

  /** What a merge and its Phis are while the Phis are sent away. */
  ghost predicate Sending<V>(nodes: seq<Node<V>>, n: nat, phis: seq<nat>, first: nat, index: nat, captured: set<int>,
                             k: Track, middle: seq<Node<V>>)
    requires n < |nodes|
  {
    && |middle| == |nodes| && index < |nodes[n].inputs| && WaysAgree(middle, nodes[n].inputs, phis, first, index)
    && (forall p :: p in phis ==> p < |nodes| && p !in captured && PhiOrGone(middle[p], n))
    && (n in k.steps ==> index <= k.way(n) < |nodes[n].inputs| && nodes[n].inputs[k.way(n)] == first)
  }

  lemma SendingFacts<V(!new)>(lang: Language<V>, noted: set<int>, captured: set<int>, start: int, nodes: seq<Node<V>>,
                              n: nat, phis: seq<nat>, first: nat, index: nat, k: Track, middle: seq<Node<V>>)
    requires Tidy(lang, start, nodes) && Moves(nodes, start, k) && captured <= noted
    requires n < |nodes| && Drops(nodes, noted, n, phis, first, index)
    requires PhisSent(nodes, phis, middle) && WaysAgree(middle, nodes[n].inputs, phis, first, index)
    ensures Sending(nodes, n, phis, first, index, captured, k, middle)
  {
    MergeFacts(noted, nodes, n, phis, first, index);
    if n in k.steps {
      CameFromFirst(start, nodes, n, first, k);
      assert Counts(nodes, n, k.way(n)) <==> Counts(nodes, n, index);
    }
  }

  /** A Phi that the run uses took what it gets along the way that is left. */
  lemma PhiTook<V>(lang: Language<V>, eval: Evaluator<V>, captured: set<int>, start: int, nodes: seq<Node<V>>, n: nat,
                   phis: seq<nat>, first: nat, index: nat, middle: seq<Node<V>>, p: nat, k: Track, w: Store<V>)
    requires n < |nodes| && Sending(nodes, n, phis, first, index, captured, k, middle)
    requires Runs(lang, eval, middle, start, captured, k, w) && p in phis && p in w.used
    ensures p < |middle| && index < |middle[p].inputs| && middle[p].inputs[index] !in {NONE, p}
    ensures StandsIn(middle, captured, k, w, p, middle[p].inputs[index])
  {
    assert UseOf(lang, eval, middle, captured, k, w, p) && Took(middle, captured, k, w, p);
    assert middle[p].inputs[k.way(n)] == middle[p].inputs[index];
  }

  lemma {:induction false} PhisRun<V(!new)>(lang: Language<V>, eval: Evaluator<V>, noted: set<int>, captured: set<int>,
                                            start: int, nodes: seq<Node<V>>, n: nat, phis: seq<nat>, first: nat,
                                            index: nat, j: nat, k: Track, w: Store<V>) returns (w': Store<V>)
    requires Runs(lang, eval, nodes, start, captured, k, w) && Tidy(lang, start, nodes) && captured <= noted
    requires n < |nodes| && Drops(nodes, noted, n, phis, first, index)
    requires WaysAgree(nodes, nodes[n].inputs, phis, first, index) && j <= |phis|
    ensures var middle := ForwardedPhis(nodes, phis[..j], index);
      && Runs(lang, eval, middle, start, captured, k, w') && Sees(nodes, w, middle, k, w') && OpsFall(nodes, middle)
      && WaysAgree(middle, nodes[n].inputs, phis, first, index) && forall p :: p in phis[..j] ==> p !in w'.used
  {
    hide Runs, Tidy, Drops, Sees, OpsFall, Sole, Forwarded, Follows, StandsIn, WaysAgree, Sending, PhisSent;
    if j == 0 {
      w' := w;
      SeesItself(lang, eval, captured, start, nodes, k, w);
    } else {
      var front, p := phis[..j - 1], phis[j - 1];
      assert phis[..j] == front + [p] && phis[..j][..j - 1] == front && p in phis;
      var before := ForwardedPhis(nodes, front, index);
      var v := PhisRun(lang, eval, noted, captured, start, nodes, n, phis, first, index, j - 1, k, w);
      PhiReady(lang, eval, noted, captured, start, nodes, n, phis, first, index, j - 1, k, w);
      w' := PhiRun(lang, eval, captured, start, nodes, n, phis, first, index, before, p, k, w, v);
    }
  }

  lemma PhiReady<V(!new)>(lang: Language<V>, eval: Evaluator<V>, noted: set<int>, captured: set<int>, start: int,
                          nodes: seq<Node<V>>, n: nat, phis: seq<nat>, first: nat, index: nat, j: nat, k: Track,
                          w: Store<V>)
    requires Runs(lang, eval, nodes, start, captured, k, w) && Tidy(lang, start, nodes) && captured <= noted
    requires n < |nodes| && Drops(nodes, noted, n, phis, first, index) && j <= |phis|
    requires WaysAgree(ForwardedPhis(nodes, phis[..j], index), nodes[n].inputs, phis, first, index)
    ensures var middle := ForwardedPhis(nodes, phis[..j], index);
      Follows(nodes, k, middle, k) && Sending(nodes, n, phis, first, index, captured, k, middle)
  {
    hide Tidy, Drops, Sole, Follows, WaysAgree, Sending, PhisSent, ForwardedPhis;
    MergeFacts(noted, nodes, n, phis, first, index);
    PhisMove(lang, start, nodes, phis, index, j, k);
    SendingFacts(lang, noted, captured, start, nodes, n, phis, first, index, k, ForwardedPhis(nodes, phis[..j], index));
  }

  /** One Phi is sent away. */
  lemma PhiRun<V>(lang: Language<V>, eval: Evaluator<V>, captured: set<int>, start: int, nodes: seq<Node<V>>, n: nat,
                  phis: seq<nat>, first: nat, index: nat, before: seq<Node<V>>, p: nat, k: Track, w: Store<V>,
                  v: Store<V>) returns (w': Store<V>)
    requires n < |nodes| && Sending(nodes, n, phis, first, index, captured, k, before) && p in phis
    requires Runs(lang, eval, before, start, captured, k, v) && Follows(nodes, k, before, k)
    requires Sees(nodes, w, before, k, v) && OpsFall(nodes, before)
    ensures p < |before|
    ensures var after := if index < |before[p].inputs| && before[p].inputs[index] != NONE
      then Forwarded(before, p, before[p].inputs[index]) else before;
      && Runs(lang, eval, after, start, captured, k, w') && Sees(nodes, w, after, k, w') && OpsFall(nodes, after)
      && WaysAgree(after, nodes[n].inputs, phis, first, index) && w'.used == v.used - {p}
  {
    hide Runs, Sees, OpsFall, Follows, WaysAgree;
    if p in v.used { PhiTook(lang, eval, captured, start, nodes, n, phis, first, index, before, p, k, v); }
    if index < |before[p].inputs| && before[p].inputs[index] !in {NONE, p} {
      var d := before[p].inputs[index];
      assert DataForward(before, p, d) && StandsIn(before, captured, k, v, p, d);
      hide Sending, StandsIn, DataForward, Forwarded;
      ForwardRuns(lang, eval, captured, start, before, p, d, k, v);
      ForwardKeeps(lang, eval, captured, start, before, p, d, k, v);
      SendingAgrees(nodes, n, phis, first, index, captured, k, before);
      WaysStillAgree(before, nodes[n].inputs, phis, first, index, p, d);
      w' := Without(v, p);
      SeesThrough(nodes, w, k, before, k, v, Forwarded(before, p, d), k, w');
    } else {
      w' := v;
    }
  }

  lemma SendingAgrees<V>(nodes: seq<Node<V>>, n: nat, phis: seq<nat>, first: nat, index: nat, captured: set<int>,
                         k: Track, middle: seq<Node<V>>)
    requires n < |nodes| && Sending(nodes, n, phis, first, index, captured, k, middle)
    ensures WaysAgree(middle, nodes[n].inputs, phis, first, index)
  {
  }

  lemma SeesItself<V>(lang: Language<V>, eval: Evaluator<V>, captured: set<int>, start: int, nodes: seq<Node<V>>,
                      k: Track, w: Store<V>)
    requires Runs(lang, eval, nodes, start, captured, k, w)
    ensures Sees(nodes, w, nodes, k, w) && OpsFall(nodes, nodes)
  {
  }

  lemma ForwardKeeps<V>(lang: Language<V>, eval: Evaluator<V>, captured: set<int>, start: int, nodes: seq<Node<V>>,
                        n: nat, to: int, k: Track, w: Store<V>)
    requires DataForward(nodes, n, to) && Runs(lang, eval, nodes, start, captured, k, w)
    ensures Follows(nodes, k, Forwarded(nodes, n, to), k)
  {
    ForwardMoves(start, nodes, n, to, k);
  }

  /** The Phis that the run still uses hang on other joins. */
  lemma OtherJoins<V>(lang: Language<V>, eval: Evaluator<V>, noted: set<int>, captured: set<int>, start: int,
                      nodes: seq<Node<V>>, n: nat, phis: seq<nat>, first: nat, index: nat, middle: seq<Node<V>>,
                      k: Track, w: Store<V>, p: int)
    requires n < |nodes| && Drops(nodes, noted, n, phis, first, index) && PhisSent(nodes, phis, middle)
    requires Runs(lang, eval, middle, start, captured, k, w) && p in w.used && p !in captured
    requires OpsFall(nodes, middle) && forall q :: q in phis ==> q !in w.used
    requires 0 <= p < |nodes| && middle[p].op.Phi?
    ensures middle[p].control in k.steps - {n}
  {
    var q: nat := p;
    assert IsPhiOf(nodes, n, q) ==> q in phis;
    assert UseOf(lang, eval, middle, captured, k, w, p);
  }

  lemma DropRuns<V(!new)>(lang: Language<V>, eval: Evaluator<V>, noted: set<int>, captured: set<int>, start: int,
                          nodes: seq<Node<V>>, n: nat, phis: seq<nat>, first: nat, index: nat, k: Track, w: Store<V>)
    returns (w': Store<V>)
    requires Runs(lang, eval, nodes, start, captured, k, w) && Tidy(lang, start, nodes) && captured <= noted
    requires n < |nodes| && Drops(nodes, noted, n, phis, first, index)
    requires WaysAgree(nodes, nodes[n].inputs, phis, first, index)
    ensures var after, k' := Rewritten(nodes, DropMerge(n, phis, first, index)), Bypass(k, {n}, first);
      && Runs(lang, eval, after, start, captured, k', w') && Sees(nodes, w, after, k', w') && OpsFall(nodes, after)
  {
    hide Rerouted, Tidy, Runs, Forwarded, ForwardedPhis, Sees, OpsFall, Follows, Drops, Sole, PhisSent, WaysAgree;
    assert Moves(nodes, start, k) by { MovesOf(lang, eval, captured, start, nodes, k, w); }
    hide Moves;
    var middle, k' := ForwardedPhis(nodes, phis, index), Bypass(k, {n}, first);
    var after := Forwarded(middle, n, first);
    assert phis[..|phis|] == phis;
    MergeFacts(noted, nodes, n, phis, first, index);
    w' := PhisRun(lang, eval, noted, captured, start, nodes, n, phis, first, index, |phis|, k, w);
    PhisMove(lang, start, nodes, phis, index, |phis|, k);
    GoneStays(nodes, phis, index);
    StillSole(lang, start, nodes, n, phis, first, middle);
    MergeMoves(lang, start, middle, n, first, k);
    MergeReroutes(lang, start, middle, n, first);
    forall p | p in w'.used && 0 <= p < |nodes| && middle[p].op.Phi? && p !in captured
      ensures middle[p].control in k'.steps
    {
      OtherJoins(lang, eval, noted, captured, start, nodes, n, phis, first, index, middle, k, w', p);
    }
    assert Reroutes(middle, start, captured, k, w', after, n, k', {n});
    RerouteRuns(lang, eval, captured, start, middle, k, w', after, n, first, {n}, k');
    SeesThrough(nodes, w, k, middle, k, w', after, k', w');
  }

  lemma MergeReroutes<V(!new)>(lang: Language<V>, start: int, nodes: seq<Node<V>>, n: nat, first: nat)
    requires Tidy(lang, start, nodes) && n < |nodes| && nodes[n].op.Merge? && Sole(nodes, n, first)
    requires first < |nodes|
    ensures var after := Forwarded(nodes, n, first);
      Rerouted(nodes, after, n, first, {n}) && OpsFall(nodes, after) && !IsIf(after, first)
  {
    var i :| 0 <= i < |nodes[n].inputs| && Counts(nodes, n, i) && nodes[n].inputs[i] == first;
    assert TidyNode(lang, nodes, nodes[n]) && !IsIf(nodes, nodes[n].inputs[i]);
  }

  // ----- Sweeping -----

  function Within<V>(w: Store<V>, live: set<int>): Store<V> {
    Store(w.used * live, w.value)
  }

  lemma LiveReads<V>(nodes: seq<Node<V>>, reach: set<int>, live: set<int>, w: Store<V>, m: nat)
    requires IsLive(nodes, reach, live) && m < |nodes| && m in live && Reads(nodes, w, m)
    requires !Joins(nodes[m].op) && !nodes[m].op.Phi? && forall r :: r in w.used ==> 0 <= r < |nodes|
    ensures Reads(nodes, Within(w, live), m)
  {
    hide Live;
    LiveClosed(nodes, reach, live);
    var w' := Within(w, live);
    forall i | 0 <= i < |nodes[m].inputs| ensures nodes[m].inputs[i] == NONE || nodes[m].inputs[i] in w'.used {
      var r := nodes[m].inputs[i];
      assert r == NONE || r in w.used;
      if r != NONE { assert Needs(nodes, reach, m, r); }
    }
  }

  lemma SweepUse<V>(lang: Language<V>, eval: Evaluator<V>, captured: set<int>, start: int, nodes: seq<Node<V>>,
                    reach: set<int>, live: set<int>, after: seq<Node<V>>, k: Track, w: Store<V>, m: int)
    requires IsLive(nodes, reach, live) && Swept(nodes, live, after) && Runs(lang, eval, nodes, start, captured, k, w)
    requires forall l :: l in k.steps ==> l in reach
    requires 0 <= start < |nodes| && nodes[start].op.Start? && m in w.used && m in live
    ensures UseOf(lang, eval, after, captured, Alive(k, live), Within(w, live), m)
    ensures SeesUse(nodes, w, after, Within(w, live), m)
  {
    hide DoneBy, ConstantsHold, Values, IsLive, Computes;
    var w' := Within(w, live);
    assert UseOf(lang, eval, nodes, captured, k, w, m) && after[m] == nodes[m];
    forall r | r in w.used ensures 0 <= r < |nodes| { UseInRange(lang, eval, nodes, captured, k, w, r); }
    if nodes[m].op.Phi? {
      if m !in captured {
        var c := nodes[m].control;
        assert Took(nodes, captured, k, w, m) && StepOf(nodes, start, k, c);
        var r := nodes[m].inputs[k.way(c)];
        assert LiveEdge(nodes[c], reach, k.way(c)) by { assert StepOf(nodes, start, k, k.from(c)); }
        TakenLive(nodes, reach, live, m, k.way(c));
        NeededControl(nodes, reach, live, m);
        assert after[r] == nodes[r] && after[c] == nodes[c];
      }
    } else if !nodes[m].op.Constant? {
      LiveReads(nodes, reach, live, w, m);
      SameComputes(lang, eval, nodes, captured, w, after, w', m);
    }
  }

  lemma SameComputes<V>(lang: Language<V>, eval: Evaluator<V>, nodes: seq<Node<V>>, captured: set<int>, w: Store<V>,
                        after: seq<Node<V>>, w': Store<V>, m: nat)
    requires m < |nodes| == |after| && after[m] == nodes[m] && w'.value == w.value
    ensures Computes(lang, eval, nodes, captured, w, m) <==> Computes(lang, eval, after, captured, w', m)
  {
  }

  lemma TakenLive<V>(nodes: seq<Node<V>>, reach: set<int>, live: set<int>, m: nat, i: nat)
    requires IsLive(nodes, reach, live) && m < |nodes| && m in live && nodes[m].op.Phi? && i < |nodes[m].inputs|
    requires 0 <= nodes[m].control < |nodes| && Joins(nodes[nodes[m].control].op)
    requires LiveEdge(nodes[nodes[m].control], reach, i) && 0 <= nodes[m].inputs[i] < |nodes|
    ensures nodes[m].inputs[i] in live
  {
    hide Live;
    LiveClosed(nodes, reach, live);
    assert Needs(nodes, reach, m, nodes[m].inputs[i]);
  }

  lemma NeededControl<V>(nodes: seq<Node<V>>, reach: set<int>, live: set<int>, m: nat)
    requires IsLive(nodes, reach, live) && m < |nodes| && m in live && 0 <= nodes[m].control < |nodes|
    ensures nodes[m].control in live
  {
    hide Live;
    LiveClosed(nodes, reach, live);
    assert Needs(nodes, reach, m, nodes[m].control);
  }

  lemma SweepDone<V>(lang: Language<V>, eval: Evaluator<V>, captured: set<int>, start: int, nodes: seq<Node<V>>,
                     reach: set<int>, live: set<int>, after: seq<Node<V>>, k: Track, w: Store<V>, m: int)
    requires IsLive(nodes, reach, live) && Swept(nodes, live, after) && Runs(lang, eval, nodes, start, captured, k, w)
    requires m in k.steps && m in live && Moves(after, start, Alive(k, live))
    ensures 0 <= m < |nodes| && after[m] == nodes[m]
    ensures DoneBy(lang, after, start, Alive(k, live), Within(w, live), m)
  {
    hide ConstantsHold, Values, IsLive, Computes;
    assert DoneBy(lang, nodes, start, k, w, m) && StepOf(nodes, start, k, m);
    forall r | r in w.used ensures 0 <= r < |nodes| { UseInRange(lang, eval, nodes, captured, k, w, r); }
    if !Joins(nodes[m].op) { LiveReads(nodes, reach, live, w, m); }
    if m != start {
      assert StepOf(after, start, Alive(k, live), m);
      assert StepOf(nodes, start, k, k.from(m)) && after[k.from(m)] == nodes[k.from(m)];
    }
  }

  lemma SweepRuns<V>(lang: Language<V>, eval: Evaluator<V>, captured: set<int>, start: int, nodes: seq<Node<V>>,
                     reach: set<int>, live: set<int>, after: seq<Node<V>>, k: Track, w: Store<V>)
    returns (w': Store<V>)
    requires IsReach(nodes, start, reach) && IsLive(nodes, reach, live) && Swept(nodes, live, after)
    requires Runs(lang, eval, nodes, start, captured, k, w) && 0 <= start < |nodes| && nodes[start].op.Start?
    ensures Runs(lang, eval, after, start, captured, Alive(k, live), w')
    ensures Sees(nodes, w, after, Alive(k, live), w') && OpsFall(nodes, after)
  {
    w' := Within(w, live);
    SweepMoves(start, nodes, reach, live, after, k);
    assert ConstantsHold(after, captured, w') by {
      forall m | FreeConstant(after, captured, m) ensures w'.value(m) == after[m].value {
        assert FreeConstant(nodes, captured, m);
      }
    }
    assert forall m :: 0 <= m < |nodes| && !after[m].op.Nop? ==> m in live;
    assert OpsFall(nodes, after);
    hide Moves, DoneBy, UseOf, ConstantsHold, SeesUse, Values, IsReach, IsLive, Swept, OpsFall;
    forall m | m in k.steps && m in live
      ensures DoneBy(lang, after, start, Alive(k, live), w', m) && 0 <= m < |nodes| && after[m] == nodes[m]
    {
      SweepDone(lang, eval, captured, start, nodes, reach, live, after, k, w, m);
    }
    forall m | m in w.used && m in live
      ensures UseOf(lang, eval, after, captured, Alive(k, live), w', m)
      ensures 0 <= m < |nodes| && SeesUse(nodes, w, after, w', m)
    {
      UseInRange(lang, eval, nodes, captured, k, w, m);
      SweepUse(lang, eval, captured, start, nodes, reach, live, after, k, w, m);
    }
  }

  // ----- One step -----

  /** Control is not cut, expressions are shared where closures allow it, and several ways into a dropped merge from
      the same node agree. */
  ghost predicate SoundStep<V>(pass: Pass, nodes: seq<Node<V>>, r: Rewrite<V>) {
    && OpenStep(nodes, r)
    && (pass == SharingExpressions && r.Forward? ==> Mergeable(nodes, r.n, r.to))
    && (r.DropMerge? && r.n < |nodes| ==> WaysAgree(nodes, nodes[r.n].inputs, r.phis, r.first, r.index))
  }

  ghost predicate SoundSteps<V>(pass: Pass, before: seq<Node<V>>, steps: seq<Rewrite<V>>) {
    forall j :: 0 <= j < |steps| ==> SoundStep(pass, Outcome(before, steps[..j]), steps[j])
  }

  ghost predicate SoundStage<V>(before: seq<Node<V>>, stage: Stage<V>) {
    stage.Rewriting? ==> SoundSteps(stage.pass, before, stage.steps)
  }

  ghost predicate Sound<V>(graphs: seq<seq<Node<V>>>, stages: seq<Stage<V>>) {
    |graphs| == |stages| + 1 && forall i :: 0 <= i < |stages| ==> SoundStage(graphs[i], stages[i])
  }

  lemma SoundFront<V>(pass: Pass, before: seq<Node<V>>, steps: seq<Rewrite<V>>)
    requires SoundSteps(pass, before, steps) && steps != []
    ensures var front := steps[..|steps| - 1];
      SoundSteps(pass, before, front) && SoundStep(pass, Outcome(before, front), steps[|steps| - 1])
  {
    hide SoundStep, Outcome;
    var front := steps[..|steps| - 1];
    assert forall j :: 0 <= j < |front| ==> front[..j] == steps[..j] && front[j] == steps[j];
    assert steps[..|front|] == front;
  }

  lemma SoundLast<V>(graphs: seq<seq<Node<V>>>, stages: seq<Stage<V>>)
    requires Sound(graphs, stages) && stages != []
    ensures var last := |stages| - 1;
      Sound(graphs[..|graphs| - 1], stages[..last]) && SoundStage(graphs[last], stages[last])
  {
    hide SoundStage;
  }

  lemma SoundIsOpen<V>(pass: Pass, nodes: seq<Node<V>>, r: Rewrite<V>)
    requires SoundStep(pass, nodes, r)
    ensures OpenStep(nodes, r)
  {
  }

  /** What the pass spares when it shares, folds and simplifies includes the variables. */
  ghost predicate Spares<V>(pass: Pass, noted: set<int>, nodes: seq<Node<V>>, captured: set<int>) {
    captured <= if pass == SharingExpressions then CapturedSet(nodes) else noted
  }

  /** The run `k'`, `w'` of the new graph does what the run `k`, `w` of the old one did. */
  ghost predicate Matched<V(!new)>(lang: Language<V>, eval: Evaluator<V>, start: int, captured: set<int>,
                                   before: seq<Node<V>>, k: Track, w: Store<V>, after: seq<Node<V>>, k': Track,
                                   w': Store<V>) {
    && Tidy(lang, start, after) && Runs(lang, eval, after, start, captured, k', w')
    && Follows(before, k, after, k') && Sees(before, w, after, k', w') && OpsFall(before, after)
  }

  lemma MatchedThrough<V(!new)>(lang: Language<V>, eval: Evaluator<V>, start: int, captured: set<int>, a: seq<Node<V>>,
                                j: Track, u: Store<V>, b: seq<Node<V>>, k: Track, v: Store<V>, c: seq<Node<V>>,
                                l: Track, w: Store<V>)
    requires Matched(lang, eval, start, captured, a, j, u, b, k, v)
    requires Matched(lang, eval, start, captured, b, k, v, c, l, w)
    ensures Matched(lang, eval, start, captured, a, j, u, c, l, w)
  {
    assert l.steps <= k.steps <= j.steps;
    hide Tidy, Runs, Follows, Sees, OpsFall;
    FollowsThrough(a, j, b, k, c, l);
    SeesThrough(a, u, j, b, k, v, c, l, w);
  }

  lemma OpsFallStep<V>(lang: Language<V>, noted: set<int>, nodes: seq<Node<V>>, r: Rewrite<V>)
    requires (r.FoldTo? && Justified(Folding, lang, noted, nodes, r)) || r.TakeSide?
    ensures OpsFall(nodes, Rewritten(nodes, r))
  {
  }

  lemma ExpressionStep<V(!new)>(lang: Language<V>, eval: Evaluator<V>, captured: set<int>, start: int,
                                nodes: seq<Node<V>>, n: nat, to: int, k: Track, w: Store<V>) returns (w': Store<V>)
    requires 0 <= to < n < |nodes| && SameExpression(nodes, to, n) && Mergeable(nodes, n, to)
    requires captured <= CapturedSet(nodes) && Runs(lang, eval, nodes, start, captured, k, w)
    ensures var after := Forwarded(nodes, n, to);
      Runs(lang, eval, after, start, captured, k, w') && Sees(nodes, w, after, k, w') && OpsFall(nodes, after)
  {
    if to in captured {
      w' := UnreadRuns(lang, eval, captured, start, nodes, n, to, k, w);
    } else {
      w' := ExpressionRuns(lang, eval, captured, start, nodes, n, to, k, w);
    }
  }

  lemma ForwardStep<V(!new)>(pass: Pass, lang: Language<V>, eval: Evaluator<V>, noted: set<int>, captured: set<int>,
                             start: int, nodes: seq<Node<V>>, n: nat, to: int, k: Track, w: Store<V>)
    returns (w': Store<V>)
    requires FoldsRight(lang, eval) && Tidy(lang, start, nodes) && Justified(pass, lang, noted, nodes, Forward(n, to))
    requires SoundStep(pass, nodes, Forward(n, to)) && Spares(pass, noted, nodes, captured)
    requires Runs(lang, eval, nodes, start, captured, k, w)
    ensures var after := Forwarded(nodes, n, to);
      Runs(lang, eval, after, start, captured, k, w') && Sees(nodes, w, after, k, w') && OpsFall(nodes, after)
  {
    ForwardFacts(pass, lang, noted, nodes, n, to);
    hide Runs, Forwarded, Mergeable, SameConstant, SameExpression, Sees, OpsFall;
    match pass
    case Joining =>
      SolePhi(lang, eval, captured, start, nodes, n, to, k, w);
      hide Sole, StandsIn;
      ForwardRuns(lang, eval, captured, start, nodes, n, to, k, w);
      w' := Without(w, n);
    case SharingConstants =>
      w' := ConstantRuns(lang, eval, noted, captured, start, nodes, n, to, k, w);
    case SharingExpressions =>
      w' := ExpressionStep(lang, eval, captured, start, nodes, n, to, k, w);
    case _ =>
  }

  lemma StepValues<V(!new)>(pass: Pass, lang: Language<V>, eval: Evaluator<V>, noted: set<int>, captured: set<int>,
                            start: int, nodes: seq<Node<V>>, r: Rewrite<V>, k: Track, w: Store<V>)
    returns (w': Store<V>)
    requires FoldsRight(lang, eval) && Tidy(lang, start, nodes) && Justified(pass, lang, noted, nodes, r)
    requires SoundStep(pass, nodes, r) && Spares(pass, noted, nodes, captured)
    requires Runs(lang, eval, nodes, start, captured, k, w)
    ensures var after, k' := Rewritten(nodes, r), Image(nodes, r, k);
      && Runs(lang, eval, after, start, captured, k', w') && Sees(nodes, w, after, k', w') && OpsFall(nodes, after)
    ensures r.TakeSide? ==> r.untaken !in k.steps
  {
    hide Runs, Sees, OpsFall, FoldOf, Forwarded, FoldedTo, Erased, ForwardedPhis, Drops, Mergeable, WaysAgree;
    hide FoldsRight, Tidy, Took, Sole;
    match r
    case FoldTo(n, value, rewire) =>
      w' := FoldRuns(lang, eval, noted, captured, start, nodes, n, value, rewire, k, w);
      OpsFallStep(lang, noted, nodes, r);
    case TakeSide(n, taken, untaken) =>
      w' := w;
      TakeRuns(lang, eval, noted, captured, start, nodes, n, taken, untaken, k, w);
      OpsFallStep(lang, noted, nodes, r);
    case Forward(n, to) =>
      w' := ForwardStep(pass, lang, eval, noted, captured, start, nodes, n, to, k, w);
    case DropMerge(n, phis, first, index) =>
      w' := DropRuns(lang, eval, noted, captured, start, nodes, n, phis, first, index, k, w);
  }

  lemma StepRuns<V(!new)>(pass: Pass, lang: Language<V>, eval: Evaluator<V>, noted: set<int>, captured: set<int>,
                          start: int, nodes: seq<Node<V>>, r: Rewrite<V>, k: Track, w: Store<V>)
    returns (w': Store<V>)
    requires FoldsRight(lang, eval) && Tidy(lang, start, nodes) && Justified(pass, lang, noted, nodes, r)
    requires SoundStep(pass, nodes, r) && Spares(pass, noted, nodes, captured)
    requires Runs(lang, eval, nodes, start, captured, k, w)
    ensures Matched(lang, eval, start, captured, nodes, k, w, Rewritten(nodes, r), Image(nodes, r, k), w')
    ensures Keeps(nodes, k, Image(nodes, r, k), m => r.FoldTo? && r.n == m)
    ensures r.TakeSide? ==> r.untaken !in k.steps
  {
    assert Moves(nodes, start, k);
    hide Runs, Moves, Sees, OpsFall, Justified, SoundStep, OpenStep, Spares, FoldsRight, Tidy, Rewritten, Image;
    hide Follows;
    w' := StepValues(pass, lang, eval, noted, captured, start, nodes, r, k, w);
    SoundIsOpen(pass, nodes, r);
    StepTracks(pass, lang, noted, start, nodes, r, k);
  }

  // ----- One pass -----

  lemma SparesOn<V>(pass: Pass, lang: Language<V>, noted: set<int>, nodes: seq<Node<V>>, r: Rewrite<V>,
                    captured: set<int>)
    requires Spares(pass, noted, nodes, captured) && Justified(pass, lang, noted, nodes, r) && SoundStep(pass, nodes, r)
    ensures Spares(pass, noted, Rewritten(nodes, r), captured)
  {
    if pass == SharingExpressions {
      hide CapturedSet, SameExpression, Forwarded;
      StepIsMerge(lang, noted, nodes, r);
      CapturedStay(nodes, r.n, r.to);
    }
  }

  lemma MatchedItself<V(!new)>(lang: Language<V>, eval: Evaluator<V>, start: int, captured: set<int>,
                               nodes: seq<Node<V>>, k: Track, w: Store<V>)
    requires Tidy(lang, start, nodes) && Runs(lang, eval, nodes, start, captured, k, w)
    ensures Matched(lang, eval, start, captured, nodes, k, w, nodes, k, w)
  {
    FollowsItself(start, nodes, k);
    SeesItself(lang, eval, captured, start, nodes, k, w);
  }

  lemma MatchedFollows<V(!new)>(lang: Language<V>, eval: Evaluator<V>, start: int, captured: set<int>,
                                before: seq<Node<V>>, k: Track, w: Store<V>, after: seq<Node<V>>, k': Track,
                                w': Store<V>)
    requires Matched(lang, eval, start, captured, before, k, w, after, k', w')
    ensures Tidy(lang, start, after) && Runs(lang, eval, after, start, captured, k', w')
    ensures Follows(before, k, after, k')
  {
  }

  predicate SideAt<V>(nodes: seq<Node<V>>, m: int) {
    0 <= m < |nodes| && Conducts(nodes[m].op)
  }

  /** A side that the new track does not take was not on the old one. */
  lemma NotOnTrack<V>(before: seq<Node<V>>, k: Track, after: seq<Node<V>>, k': Track, m: int)
    requires Follows(before, k, after, k') && SideAt(after, m) && m !in k'.steps
    ensures SideAt(before, m) && m !in k.steps
  {
  }

  lemma UntakenIsSide<V>(pass: Pass, lang: Language<V>, noted: set<int>, nodes: seq<Node<V>>, r: Rewrite<V>)
    requires Justified(pass, lang, noted, nodes, r) && r.TakeSide?
    ensures SideAt(nodes, r.untaken)
  {
  }

  lemma LeavesOutLast<V>(steps: seq<Rewrite<V>>, m: int)
    requires steps != [] && LeavesOut(steps, m)
    ensures var r := steps[|steps| - 1]; LeavesOut(steps[..|steps| - 1], m) || (r.TakeSide? && r.untaken == m)
  {
    var last := |steps| - 1;
    var j :| 0 <= j < |steps| && steps[j].TakeSide? && steps[j].untaken == m;
    if j < last { assert steps[..last][j].TakeSide? && steps[..last][j].untaken == m; }
  }

  lemma {:induction false} StepsRun<V(!new)>(pass: Pass, lang: Language<V>, eval: Evaluator<V>, noted: set<int>,
                                             captured: set<int>, start: int, before: seq<Node<V>>,
                                             steps: seq<Rewrite<V>>, k: Track, w: Store<V>)
    returns (k': Track, w': Store<V>)
    requires FoldsRight(lang, eval) && Derived(pass, lang, noted, before, steps, Outcome(before, steps))
    requires SoundSteps(pass, before, steps) && Spares(pass, noted, before, captured)
    requires Tidy(lang, start, before) && Runs(lang, eval, before, start, captured, k, w)
    ensures Matched(lang, eval, start, captured, before, k, w, Outcome(before, steps), k', w')
    ensures Keeps(before, k, k', m => Folds(steps, m)) && Spares(pass, noted, Outcome(before, steps), captured)
    ensures forall m :: LeavesOut(steps, m) ==> SideAt(before, m) && m !in k.steps
  {
    hide Derived, SoundSteps, SoundStep, Tidy, Runs, Justified, Rewritten, Image, Matched, FoldsRight, Spares, Follows;
    if steps == [] {
      k', w' := k, w;
      MatchedItself(lang, eval, start, captured, before, k, w);
    } else {
      var last := |steps| - 1;
      var front, r := steps[..last], steps[last];
      var middle := Outcome(before, front);
      DerivedFront(pass, lang, noted, before, steps);
      SoundFront(pass, before, steps);
      var j, v := StepsRun(pass, lang, eval, noted, captured, start, before, front, k, w);
      MatchedFollows(lang, eval, start, captured, before, k, w, middle, j, v);
      w' := StepRuns(pass, lang, eval, noted, captured, start, middle, r, j, v);
      k' := Image(middle, r, j);
      MatchedThrough(lang, eval, start, captured, before, k, w, middle, j, v, Outcome(before, steps), k', w');
      SparesOn(pass, lang, noted, middle, r, captured);
      FoldsBoth(steps);
      KeepsThrough(before, k, middle, j, k', m => Folds(front, m), m => r.FoldTo? && r.n == m, m => Folds(steps, m));
      if r.TakeSide? {
        UntakenIsSide(pass, lang, noted, middle, r);
        NotOnTrack(before, k, middle, j, r.untaken);
      }
      forall m | LeavesOut(steps, m) ensures SideAt(before, m) && m !in k.steps { LeavesOutLast(steps, m); }
    }
  }

  // ----- All rounds -----

  lemma NotedCaptures<V>(pass: Pass, nodes: seq<Node<V>>, captured: set<int>)
    requires captured <= CapturedSet(nodes)
    ensures Spares(pass, Noted(pass, nodes), nodes, captured)
  {
    forall r | r in captured ensures r in SlotSet(nodes, false) && r in SlotSet(nodes, true) {
      var n :| 0 <= n < |nodes| && CapturedBy(nodes[n], r);
      assert CapturedOrSlot(nodes, r, false) && CapturedOrSlot(nodes, r, true);
    }
    forall r | r in captured && pass != SharingExpressions ensures r in Noted(pass, nodes) { }
  }

  lemma StageRuns<V(!new)>(lang: Language<V>, eval: Evaluator<V>, captured: set<int>, start: int,
                           before: seq<Node<V>>, stage: Stage<V>, after: seq<Node<V>>, k: Track, w: Store<V>)
    returns (k': Track, w': Store<V>)
    requires FoldsRight(lang, eval) && StageOf(lang, start, before, stage, after) && SoundStage(before, stage)
    requires Tidy(lang, start, before) && captured <= CapturedSet(before)
    requires Runs(lang, eval, before, start, captured, k, w)
    ensures Matched(lang, eval, start, captured, before, k, w, after, k', w')
    ensures Keeps(before, k, k', m => WasFolded([stage], m))
    ensures forall m :: LeftOut([stage], m) ==> SideAt(before, m) && m !in k.steps
  {
    hide FoldsRight, Runs, Outcome, CapturedSet, Sees, OpsFall;
    match stage
    case Rewriting(pass, steps) =>
      hide Tidy, Noted, Matched;
      NotedCaptures(pass, before, captured);
      k', w' := StepsRun(pass, lang, eval, Noted(pass, before), captured, start, before, steps, k, w);
      forall m | Folds(steps, m) ensures WasFolded([stage], m) {
        assert [stage][0].Rewriting? && Folds([stage][0].steps, m);
      }
      forall m | LeftOut([stage], m) ensures LeavesOut(steps, m) { }
    case Sweeping(reach, live) =>
      k' := Alive(k, live);
      MovesOf(lang, eval, captured, start, before, k, w);
      SweepTidy(lang, start, before, reach, live, after);
      SweepMoves(start, before, reach, live, after, k);
      w' := SweepRuns(lang, eval, captured, start, before, reach, live, after, k, w);
  }

  lemma MovesOf<V>(lang: Language<V>, eval: Evaluator<V>, captured: set<int>, start: int, nodes: seq<Node<V>>,
                   k: Track, w: Store<V>)
    requires Runs(lang, eval, nodes, start, captured, k, w)
    ensures Moves(nodes, start, k)
  {
  }

  /** What closures capture from the first graph to the last. */
  ghost predicate Variables<V>(graphs: seq<seq<Node<V>>>, captured: set<int>) {
    forall i :: 0 <= i < |graphs| ==> captured <= CapturedSet(graphs[i])
  }

  lemma LeftOutLast<V>(stages: seq<Stage<V>>, m: int)
    requires stages != [] && LeftOut(stages, m)
    ensures LeftOut(stages[..|stages| - 1], m) || LeftOut([stages[|stages| - 1]], m)
  {
    hide LeavesOut;
    var last := |stages| - 1;
    var i :| 0 <= i < |stages| && stages[i].Rewriting? && LeavesOut(stages[i].steps, m);
    if i < last {
      assert stages[..last][i].Rewriting? && LeavesOut(stages[..last][i].steps, m);
    } else {
      assert [stages[last]][0].Rewriting? && LeavesOut([stages[last]][0].steps, m);
    }
  }

  /**
   * However the optimiser went about it: for every run of the original there is a run of the result that passes what
   * is left of the same steps, at the same times, and every step sees the operand values that it saw in the original.
   * No step is missing but folded operators, merges and decided branches; sides not taken were not on the run.
   */
  lemma {:induction false} OptimizedRun<V(!new)>(lang: Language<V>, eval: Evaluator<V>, captured: set<int>, start: int,
                                                 graphs: seq<seq<Node<V>>>, stages: seq<Stage<V>>, k: Track,
                                                 w: Store<V>) returns (k': Track, w': Store<V>)
    requires FoldsRight(lang, eval) && Chain(lang, start, graphs, stages) && Sound(graphs, stages)
    requires Tidy(lang, start, graphs[0]) && Variables(graphs, captured)
    requires Runs(lang, eval, graphs[0], start, captured, k, w)
    ensures var before, after := graphs[0], graphs[|graphs| - 1];
      && Matched(lang, eval, start, captured, before, k, w, after, k', w')
      && Keeps(before, k, k', m => WasFolded(stages, m))
      && forall m :: LeftOut(stages, m) ==> SideAt(before, m) && m !in k.steps
  {
    hide FoldsRight, Chain, Sound, Tidy, Variables, Runs, Matched, LeftOut, WasFolded, StageOf, SoundStage, Follows;
    ChainSize(lang, start, graphs, stages);
    if stages == [] {
      k', w' := k, w;
      MatchedItself(lang, eval, start, captured, graphs[0], k, w);
      forall m ensures !LeftOut(stages, m) { NoStages(stages, m); }
    } else {
      var last := |stages| - 1;
      var first, before, middle, after := graphs[..|graphs| - 1], graphs[0], graphs[last], graphs[last + 1];
      ChainFront(lang, start, graphs, stages);
      SoundLast(graphs, stages);
      VariablesOf(graphs, captured);
      var j, v := OptimizedRun(lang, eval, captured, start, first, stages[..last], k, w);
      MatchedFollows(lang, eval, start, captured, before, k, w, middle, j, v);
      k', w' := StageRuns(lang, eval, captured, start, middle, stages[last], after, j, v);
      MatchedThrough(lang, eval, start, captured, before, k, w, middle, j, v, after, k', w');
      forall m ensures WasFolded(stages[..last], m) || WasFolded([stages[last]], m) ==> WasFolded(stages, m) {
        LeftOutBoth(stages, m);
      }
      KeepsThrough(before, k, middle, j, k', m => WasFolded(stages[..last], m), m => WasFolded([stages[last]], m),
        m => WasFolded(stages, m));
      forall m | LeftOut(stages, m) ensures SideAt(before, m) && m !in k.steps {
        LeftOutLast(stages, m);
        if LeftOut([stages[last]], m) { NotOnTrack(before, k, middle, j, m); }
      }
    }
  }

  lemma NoStages<V>(stages: seq<Stage<V>>, m: int)
    requires stages == []
    ensures !LeftOut(stages, m)
  {
  }

  lemma VariablesOf<V>(graphs: seq<seq<Node<V>>>, captured: set<int>)
    requires Variables(graphs, captured) && |graphs| > 1
    ensures Variables(graphs[..|graphs| - 1], captured) && captured <= CapturedSet(graphs[|graphs| - 2])
  {
  }
}
