/** The sea-of-nodes graph as the optimiser sees it (src/compiler/IR.h:15-148) and its dead-code elimination
    (src/compiler/IROptimizer.cpp:38-74, 517-637). */
module OptimizerGraph {

  /** `Pure` are the ops that common-subexpression elimination merges, `Effect` the other ops with side effects,
      `Plain` the other ops without. */
  datatype Op = Nop | Start | Constant | Phi | Merge | Loop | If | IfTrue | IfFalse | TryBegin
    | Closure | UpdateCaptured | PassRefs | BuildNamespace | Pure(code: nat) | Effect(code: nat) | Plain(code: nat)

  /** The null pointer. */
  const NONE := -1

  datatype Node<V> = Node(op: Op, inputs: seq<int>, control: int, payload: nat, value: V)

  predicate HasSideEffects(op: Op) {
    !(op.Nop? || op.Constant? || op.Phi? || op.Closure? || op.Pure? || op.Plain?)
  }

  /** Inputs and control inputs are nodes of the graph, or null. */
  ghost predicate Valid<V>(nodes: seq<Node<V>>) {
    forall n :: 0 <= n < |nodes| ==> GoodRef(nodes[n].control, |nodes|) && GoodRefs(nodes[n].inputs, |nodes|)
  }

  ghost predicate GoodRefs(refs: seq<int>, count: nat) {
    forall i :: 0 <= i < |refs| ==> GoodRef(refs[i], count)
  }

  predicate GoodRef(r: int, count: nat) {
    NONE <= r < count
  }

  predicate Joins(op: Op) {
    op.Merge? || op.Loop?
  }

  // ----- Marking with a worklist -----

  type Edge = (int, int) -> bool

  /** What the roots reach along the edges. */
  least predicate Reached[nat](count: nat, roots: set<int>, edge: Edge, n: int) {
    0 <= n < count && (n in roots || exists m :: 0 <= m < count && edge(m, n) && Reached(count, roots, edge, m))
  }

  /** A set that holds the roots and is closed under the edges holds everything reached. */
  least lemma ReachedWithin[nat](count: nat, roots: set<int>, edge: Edge, n: int, marked: set<int>)
    requires Reached(count, roots, edge, n)
    requires forall r :: r in roots && 0 <= r < count ==> r in marked
    requires forall m, u :: m in marked && 0 <= u < count && edge(m, u) ==> u in marked
    ensures n in marked
  {
    if n !in roots {
      var m :| 0 <= m < count && edge(m, n) && Reached#[_k - 1](count, roots, edge, m);
      ReachedWithin(count, roots, edge, m, marked);
    }
  }

  lemma ReachedRoot(count: nat, roots: set<int>, edge: Edge, n: int)
    requires n in roots && 0 <= n < count
    ensures Reached(count, roots, edge, n)
  {
    assert Reached#[1](count, roots, edge, n);
  }

  lemma ReachedNext(count: nat, roots: set<int>, edge: Edge, m: int, n: int)
    requires Reached(count, roots, edge, m) && edge(m, n) && 0 <= n < count
    ensures Reached(count, roots, edge, n)
  {
  }

  lemma {:induction false} MarkBound(marked: set<int>, count: nat)
    requires forall m :: m in marked ==> 0 <= m < count
    ensures |marked| <= count
  {
    if count == 0 {
      forall m ensures m !in marked { }
      assert marked == {};
    } else {
      MarkBound(marked - {count - 1}, count - 1);
    }
  }

  /** All marks are reached, the waiting ones are marked, and the others have all their successors marked. */
  ghost predicate Marking(count: nat, roots: set<int>, edge: Edge, marked: set<int>, waiting: seq<int>) {
    && (forall m :: m in marked ==> 0 <= m < count && Reached(count, roots, edge, m))
    && (forall i :: 0 <= i < |waiting| ==> waiting[i] in marked)
    && (forall m, u :: m in marked && m !in waiting && 0 <= u < count && edge(m, u) ==> u in marked)
    && (forall r :: r in roots && 0 <= r < count ==> r in marked)
  }

  lemma GrowMarks(before: set<int>, marked: set<int>, u: int)
    requires u !in marked && (marked == before || |marked| > |before|)
    ensures |marked + {u}| > |before| && marked + {u} != before
  {
    assert |marked + {u}| == |marked| + 1;
  }

  /** Both worklists of eliminateDeadCode: marks exactly what the roots reach. */
  method MarkAll(count: nat, stack: seq<int>, edge: Edge) returns (marked: set<int>)
    requires forall i :: 0 <= i < |stack| ==> 0 <= stack[i] < count
    ensures forall n :: n in marked <==> Reached(count, (set r | r in stack), edge, n)
  {
    hide Reached;
    ghost var roots := set r | r in stack;
    marked := set r | r in stack;
    forall m | m in marked ensures Reached(count, roots, edge, m) { ReachedRoot(count, roots, edge, m); }
    var waiting := stack;
    while waiting != []
      invariant Marking(count, roots, edge, marked, waiting)
      decreases count - |marked|, |waiting|
    {
      MarkBound(marked, count);
      var next, pushed := MarkSuccessors(count, waiting[|waiting| - 1], edge, marked, roots);
      MarkBound(next, count);
      MarkingNext(count, roots, edge, marked, waiting, next, pushed);
      marked, waiting := next, waiting[..|waiting| - 1] + pushed;
    }
    forall n | Reached(count, roots, edge, n) ensures n in marked { ReachedWithin(count, roots, edge, n, marked); }
  }

  /** Marks and pushes the unmarked successors of `current`. */
  method MarkSuccessors(count: nat, current: int, edge: Edge, marked0: set<int>, ghost roots: set<int>)
    returns (marked: set<int>, pushed: seq<int>)
    requires forall m :: m in marked0 ==> 0 <= m < count && Reached(count, roots, edge, m)
    requires current in marked0
    ensures forall m :: m in marked ==> 0 <= m < count && Reached(count, roots, edge, m)
    ensures forall m :: m in marked <==> m in marked0 || m in pushed
    ensures forall u :: 0 <= u < count && edge(current, u) ==> u in marked
    ensures if pushed == [] then marked == marked0 else |marked| > |marked0|
  {
    hide Reached;
    marked, pushed := marked0, [];
    for u := 0 to count
      invariant forall m :: m in marked ==> 0 <= m < count && Reached(count, roots, edge, m)
      invariant forall m :: m in marked <==> m in marked0 || m in pushed
      invariant forall v :: 0 <= v < u && edge(current, v) ==> v in marked
      invariant if pushed == [] then marked == marked0 else |marked| > |marked0|
    {
      if edge(current, u) && u !in marked {
        ReachedNext(count, roots, edge, current, u);
        GrowMarks(marked0, marked, u);
        marked := marked + {u};
        pushed := pushed + [u];
      }
    }
  }

  lemma MarkingNext(count: nat, roots: set<int>, edge: Edge, marked: set<int>, waiting: seq<int>, next: set<int>,
                    pushed: seq<int>)
    requires Marking(count, roots, edge, marked, waiting) && waiting != []
    requires forall m :: m in next ==> 0 <= m < count && Reached(count, roots, edge, m)
    requires forall m :: m in next <==> m in marked || m in pushed
    requires forall u :: 0 <= u < count && edge(waiting[|waiting| - 1], u) ==> u in next
    ensures Marking(count, roots, edge, next, waiting[..|waiting| - 1] + pushed)
  {
    hide Reached;
    var current, front := waiting[|waiting| - 1], waiting[..|waiting| - 1];
    var after := front + pushed;
    assert waiting == front + [current];
    forall m, u | m in next && m !in after && 0 <= u < count && edge(m, u) ensures u in next {
      assert m !in front && m !in pushed;
    }
  }

  // ----- Reachability along control edges -----

  /** `use` follows `m` in the control graph. */
  predicate ControlUse<V>(nodes: seq<Node<V>>, m: int, use: int) {
    0 <= m < |nodes| && 0 <= use < |nodes| &&
      (nodes[use].control == m || (Joins(nodes[use].op) && m in nodes[use].inputs))
  }

  function ControlEdge<V>(nodes: seq<Node<V>>): Edge {
    (m, use) => ControlUse(nodes, m, use)
  }

  ghost predicate Reachable<V>(nodes: seq<Node<V>>, start: int, n: int) {
    Reached(|nodes|, {start}, ControlEdge(nodes), n)
  }

  ghost predicate IsReach<V>(nodes: seq<Node<V>>, start: int, reach: set<int>) {
    forall n :: n in reach <==> Reachable(nodes, start, n)
  }

  method ReachControl<V>(nodes: seq<Node<V>>, start: int) returns (reach: set<int>)
    requires GoodRef(start, |nodes|)
    ensures IsReach(nodes, start, reach)
  {
    if start == NONE {
      NoStart(nodes, start);
      return {};
    }
    reach := MarkAll(|nodes|, [start], ControlEdge(nodes));
    assert (set r | r in [start]) == {start};
  }

  lemma NoStart<V>(nodes: seq<Node<V>>, start: int)
    requires start < 0
    ensures forall n :: !Reachable(nodes, start, n)
  {
    forall n ensures !Reachable(nodes, start, n) {
      if Reachable(nodes, start, n) { ReachedWithin(|nodes|, {start}, ControlEdge(nodes), n, {}); }
    }
  }

  // ----- Liveness of nodes -----

  /** A side effect that control can reach. */
  predicate Root<V>(nodes: seq<Node<V>>, reach: set<int>, n: int) {
    0 <= n < |nodes| && HasSideEffects(nodes[n].op) && n in reach
  }

  /** A live node `n` keeps `m`: its control input, and its inputs along reachable edges. */
  predicate Needs<V>(nodes: seq<Node<V>>, reach: set<int>, n: int, m: int) {
    0 <= n < |nodes| && 0 <= m < |nodes| && (nodes[n].control == m || NeedsInput(nodes, reach, nodes[n], m))
  }

  predicate NeedsInput<V>(nodes: seq<Node<V>>, reach: set<int>, node: Node<V>, m: int) {
    if Joins(node.op) then m in node.inputs && m in reach
    else if node.op.Phi? && 0 <= node.control < |nodes| && Joins(nodes[node.control].op) then
      exists i :: 0 <= i < |node.inputs| && node.inputs[i] == m && LiveEdge(nodes[node.control], reach, i)
    else m in node.inputs
  }

  /** The i-th predecessor of the merge is reachable. */
  predicate LiveEdge<V>(merge: Node<V>, reach: set<int>, i: nat) {
    i < |merge.inputs| && merge.inputs[i] != NONE && merge.inputs[i] in reach
  }

  function NeedEdge<V>(nodes: seq<Node<V>>, reach: set<int>): Edge {
    (n, m) => Needs(nodes, reach, n, m)
  }

  function Roots<V>(nodes: seq<Node<V>>, reach: set<int>): set<int> {
    set n | 0 <= n < |nodes| && Root(nodes, reach, n)
  }

  ghost predicate Live<V>(nodes: seq<Node<V>>, reach: set<int>, n: int) {
    Reached(|nodes|, Roots(nodes, reach), NeedEdge(nodes, reach), n)
  }

  ghost predicate IsLive<V>(nodes: seq<Node<V>>, reach: set<int>, live: set<int>) {
    forall n :: n in live <==> Live(nodes, reach, n)
  }

  /** Every reachable side effect is live, and so is whatever a live node needs. */
  lemma LiveClosed<V>(nodes: seq<Node<V>>, reach: set<int>, live: set<int>)
    requires IsLive(nodes, reach, live)
    ensures forall n :: Root(nodes, reach, n) ==> n in live
    ensures forall n, m :: n in live && Needs(nodes, reach, n, m) ==> m in live
  {
    hide Needs, Root;
    forall n | Root(nodes, reach, n) ensures n in live {
      RootListed(nodes, reach, n);
      ReachedRoot(|nodes|, Roots(nodes, reach), NeedEdge(nodes, reach), n);
    }
    forall n, m | n in live && Needs(nodes, reach, n, m) ensures m in live {
      NeedsInRange(nodes, reach, n, m);
      ReachedNext(|nodes|, Roots(nodes, reach), NeedEdge(nodes, reach), n, m);
    }
  }

  lemma RootListed<V>(nodes: seq<Node<V>>, reach: set<int>, n: int)
    requires Root(nodes, reach, n)
    ensures n in Roots(nodes, reach) && 0 <= n < |nodes|
  {
  }

  lemma NeedsInRange<V>(nodes: seq<Node<V>>, reach: set<int>, n: int, m: int)
    requires Needs(nodes, reach, n, m)
    ensures 0 <= n < |nodes| && 0 <= m < |nodes|
  {
  }

  method MarkLive<V>(nodes: seq<Node<V>>, reach: set<int>) returns (live: set<int>)
    ensures IsLive(nodes, reach, live)
  {
    hide Root, Needs;
    var stack: seq<int> := [];
    for n := 0 to |nodes|
      invariant forall i :: 0 <= i < |stack| ==> 0 <= stack[i] < |nodes|
      invariant forall r :: r in stack <==> 0 <= r < n && Root(nodes, reach, r)
    {
      if Root(nodes, reach, n) {
        stack := stack + [n];
      }
    }
    live := MarkAll(|nodes|, stack, NeedEdge(nodes, reach));
    assert (set r | r in stack) == Roots(nodes, reach);
  }

  // ----- Sweeping -----

  function Cleared<V>(node: Node<V>): Node<V> {
    node.(op := Nop, inputs := [], control := NONE)
  }

  /** Everything that is not live becomes a Nop. */
  ghost predicate Swept<V>(nodes: seq<Node<V>>, live: set<int>, after: seq<Node<V>>) {
    |after| == |nodes| && forall n :: 0 <= n < |nodes| ==>
      after[n] == if n in live || nodes[n].op.Nop? then nodes[n] else Cleared(nodes[n])
  }

  method Sweep<V>(nodes: seq<Node<V>>, live: set<int>) returns (after: seq<Node<V>>, changed: bool)
    ensures Swept(nodes, live, after)
    ensures changed <==> exists n :: 0 <= n < |nodes| && !nodes[n].op.Nop? && n !in live
  {
    after, changed := nodes, false;
    for n := 0 to |nodes|
      invariant |after| == |nodes| && forall k :: n <= k < |nodes| ==> after[k] == nodes[k]
      invariant forall k :: 0 <= k < n ==>
        after[k] == if k in live || nodes[k].op.Nop? then nodes[k] else Cleared(nodes[k])
      invariant changed <==> exists k :: 0 <= k < n && !nodes[k].op.Nop? && k !in live
    {
      if !after[n].op.Nop? && n !in live {
        after := after[n := Cleared(after[n])];
        changed := true;
      }
    }
  }

  // ----- Doing it again changes nothing -----

  /** A live reachable node is reachable after the sweep: its control predecessor on the way is live, too. */
  least lemma StillReachable<V>[nat](nodes: seq<Node<V>>, start: int, reach: set<int>, live: set<int>,
                                     after: seq<Node<V>>, n: int)
    requires IsReach(nodes, start, reach) && IsLive(nodes, reach, live) && Swept(nodes, live, after)
    requires Reached(|nodes|, {start}, ControlEdge(nodes), n) && n in live
    ensures Reachable(after, start, n)
  {
    hide IsReach, IsLive, Swept;
    if n == start {
      SweptSize(nodes, live, after);
      ReachedRoot(|after|, {start}, ControlEdge(after), n);
    } else {
      var m :| 0 <= m < |nodes| && ControlEdge(nodes)(m, n) &&
        Reached#[_k - 1](|nodes|, {start}, ControlEdge(nodes), m);
      LowerRank(|nodes|, {start}, ControlEdge(nodes), m, _k - 1);
      PredecessorLive(nodes, start, reach, live, after, m, n);
      StillReachable(nodes, start, reach, live, after, m);
      SweptSize(nodes, live, after);
      ReachedNext(|after|, {start}, ControlEdge(after), m, n);
    }
  }

  lemma LowerRank(count: nat, roots: set<int>, edge: Edge, n: int, k: nat)
    requires Reached#[k](count, roots, edge, n)
    ensures Reached(count, roots, edge, n)
  {
  }

  lemma SweptSize<V>(nodes: seq<Node<V>>, live: set<int>, after: seq<Node<V>>)
    requires Swept(nodes, live, after)
    ensures |after| == |nodes|
  {
  }

  lemma PredecessorLive<V>(nodes: seq<Node<V>>, start: int, reach: set<int>, live: set<int>, after: seq<Node<V>>,
                           m: int, n: int)
    requires IsReach(nodes, start, reach) && IsLive(nodes, reach, live) && Swept(nodes, live, after)
    requires ControlUse(nodes, m, n) && n in live && Reachable(nodes, start, m)
    ensures m in live && ControlUse(after, m, n)
  {
    hide Live, Reachable;
    LiveClosed(nodes, reach, live);
    assert Needs(nodes, reach, n, m);
  }

  lemma ReachStays<V>(nodes: seq<Node<V>>, start: int, reach: set<int>, live: set<int>, after: seq<Node<V>>,
                      reach': set<int>, n: int)
    requires IsReach(nodes, start, reach) && IsLive(nodes, reach, live) && Swept(nodes, live, after)
    requires IsReach(after, start, reach')
    requires n in reach && n in live
    ensures n in reach'
  {
    hide IsLive, Swept;
    StillReachable(nodes, start, reach, live, after, n);
  }

  /** What a live node needs it still needs after the sweep. */
  lemma StillNeeds<V>(nodes: seq<Node<V>>, start: int, reach: set<int>, live: set<int>, after: seq<Node<V>>,
                      reach': set<int>, n: int, m: int)
    requires IsReach(nodes, start, reach) && IsLive(nodes, reach, live) && Swept(nodes, live, after)
    requires IsReach(after, start, reach')
    requires n in live && Needs(nodes, reach, n, m)
    ensures m in live && Needs(after, reach', n, m)
  {
    hide Live, Reachable;
    LiveClosed(nodes, reach, live);
    var node := nodes[n];
    assert after[n] == node;
    if node.control != m {
      var c := node.control;
      if Joins(node.op) {
        ReachStays(nodes, start, reach, live, after, reach', m);
      } else if node.op.Phi? && 0 <= c < |nodes| {
        assert Needs(nodes, reach, n, c);
        assert after[c] == nodes[c];
        if Joins(nodes[c].op) {
          var i :| 0 <= i < |node.inputs| && node.inputs[i] == m && LiveEdge(nodes[c], reach, i);
          var x := nodes[c].inputs[i];
          assert x in reach;
          ReachInRange(nodes, start, reach, x);
          assert Needs(nodes, reach, c, x);
          ReachStays(nodes, start, reach, live, after, reach', x);
          assert LiveEdge(after[c], reach', i);
        }
      }
    }
  }

  lemma ReachInRange<V>(nodes: seq<Node<V>>, start: int, reach: set<int>, x: int)
    requires IsReach(nodes, start, reach) && x in reach
    ensures 0 <= x < |nodes|
  {
  }

  least lemma StillLive<V>[nat](nodes: seq<Node<V>>, start: int, reach: set<int>, live: set<int>, after: seq<Node<V>>,
                                reach': set<int>, n: int)
    requires IsReach(nodes, start, reach) && IsLive(nodes, reach, live) && Swept(nodes, live, after)
    requires IsReach(after, start, reach')
    requires Reached(|nodes|, Roots(nodes, reach), NeedEdge(nodes, reach), n)
    ensures Live(after, reach', n)
  {
    hide IsReach, IsLive, Swept, Needs, Roots;
    SweptSize(nodes, live, after);
    if n in Roots(nodes, reach) {
      RootStays(nodes, start, reach, live, after, reach', n);
      ReachedRoot(|after|, Roots(after, reach'), NeedEdge(after, reach'), n);
    } else {
      var m :| 0 <= m < |nodes| && NeedEdge(nodes, reach)(m, n) &&
        Reached#[_k - 1](|nodes|, Roots(nodes, reach), NeedEdge(nodes, reach), m);
      LowerRank(|nodes|, Roots(nodes, reach), NeedEdge(nodes, reach), m, _k - 1);
      InLive(nodes, reach, live, m);
      StillNeeds(nodes, start, reach, live, after, reach', m, n);
      StillLive(nodes, start, reach, live, after, reach', m);
      ReachedNext(|after|, Roots(after, reach'), NeedEdge(after, reach'), m, n);
    }
  }

  lemma InLive<V>(nodes: seq<Node<V>>, reach: set<int>, live: set<int>, n: int)
    requires IsLive(nodes, reach, live) && Reached(|nodes|, Roots(nodes, reach), NeedEdge(nodes, reach), n)
    ensures n in live
  {
  }

  lemma RootStays<V>(nodes: seq<Node<V>>, start: int, reach: set<int>, live: set<int>, after: seq<Node<V>>,
                     reach': set<int>, n: int)
    requires IsReach(nodes, start, reach) && IsLive(nodes, reach, live) && Swept(nodes, live, after)
    requires IsReach(after, start, reach')
    requires n in Roots(nodes, reach)
    ensures n in Roots(after, reach') && 0 <= n < |nodes|
  {
    hide Live, Reachable;
    LiveClosed(nodes, reach, live);
    assert Root(nodes, reach, n);
    ReachStays(nodes, start, reach, live, after, reach', n);
    assert after[n] == nodes[n];
  }

  /** Dead-code elimination is idempotent: what a sweep leaves is live in the swept graph. */
  lemma SweepTwice<V>(nodes: seq<Node<V>>, start: int, reach: set<int>, live: set<int>, after: seq<Node<V>>,
                      reach': set<int>, live': set<int>, again: seq<Node<V>>)
    requires IsReach(nodes, start, reach) && IsLive(nodes, reach, live) && Swept(nodes, live, after)
    requires IsReach(after, start, reach') && IsLive(after, reach', live') && Swept(after, live', again)
    ensures again == after && forall n :: 0 <= n < |after| && !after[n].op.Nop? ==> n in live'
  {
    hide IsReach, Needs, Roots, Reached;
    forall n | 0 <= n < |after| && !after[n].op.Nop? ensures n in live' {
      assert n in live;
      StillLive(nodes, start, reach, live, after, reach', n);
    }
  }
}
