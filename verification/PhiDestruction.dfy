/** Phis become moves at the ends of the blocks that lead to them, and the moves of a block are put in order
    (src/compiler/RegisterAllocator.cpp:118-197). */
module PhiDestruction {
  import opened AllocatorIR
  import opened Liveness
  import opened RegisterAllocator
  import opened HandlerStacks
  import opened AllocationMeaning
  import opened PhiMoves

  /** One way into the merge of a Phi: the input for it and the block it comes from, each of them -1 if there is
   * none. */
  datatype Way = Way(source: int, block: int)

  datatype Phi = Phi(vreg: int, ways: seq<Way>)

  /** A move that is to be made: node `source` goes to register `dst`. */
  datatype Copy = Copy(dst: int, source: nat)

  /** Phis have registers. An input may have none: a throw that stands where a value is expected. */
  ghost predicate GoodPhis<V>(nodes: seq<Node<V>>, count: nat, phis: seq<Phi>) {
    forall p :: 0 <= p < |phis| ==> GoodPhi(nodes, count, phis[p])
  }

  ghost predicate GoodPhi<V>(nodes: seq<Node<V>>, count: nat, phi: Phi) {
    phi.vreg != NO_REG && forall i :: 0 <= i < |phi.ways| ==> GoodWay(nodes, count, phi.ways[i])
  }

  ghost predicate GoodWay<V>(nodes: seq<Node<V>>, count: nat, way: Way) {
    -1 <= way.source < |nodes| && -1 <= way.block < count
  }

  // ----- The moves of a block -----

  function WaysFrom(vreg: int, ways: seq<Way>, b: nat): seq<Copy> {
    if ways == [] then [] else
      var last := ways[|ways| - 1];
      WaysFrom(vreg, ways[..|ways| - 1], b) +
        if last.source >= 0 && last.block == b then [Copy(vreg, last.source)] else []
  }

  /** Phi by Phi, way by way. */
  function CopiesOf(phis: seq<Phi>, b: nat): seq<Copy> {
    if phis == [] then [] else
      CopiesOf(phis[..|phis| - 1], b) + WaysFrom(phis[|phis| - 1].vreg, phis[|phis| - 1].ways, b)
  }

  lemma {:induction false} WayIsThere(vreg: int, ways: seq<Way>, b: nat, i: nat)
    requires i < |ways| && ways[i].block == b && ways[i].source >= 0
    ensures Copy(vreg, ways[i].source) in WaysFrom(vreg, ways, b)
  {
    var n := |ways| - 1;
    if i < n { WayIsThere(vreg, ways[..n], b, i); }
  }

  lemma {:induction false} CopyIsThere(phis: seq<Phi>, b: nat, p: nat, i: nat)
    requires p < |phis| && i < |phis[p].ways| && phis[p].ways[i].block == b && phis[p].ways[i].source >= 0
    ensures Copy(phis[p].vreg, phis[p].ways[i].source) in CopiesOf(phis, b)
  {
    var n := |phis| - 1;
    if p < n {
      CopyIsThere(phis[..n], b, p, i);
    } else {
      WayIsThere(phis[n].vreg, phis[n].ways, b, i);
    }
  }

  ghost predicate GoodCopies<V>(nodes: seq<Node<V>>, copies: seq<Copy>) {
    forall k :: 0 <= k < |copies| ==>
      copies[k].source < |nodes| && copies[k].dst != NO_REG
  }

  /** The sources have registers. The moves of a throw stand behind it and never run. */
  ghost predicate Registered<V>(nodes: seq<Node<V>>, copies: seq<Copy>) {
    forall k :: 0 <= k < |copies| ==> copies[k].source < |nodes| && nodes[copies[k].source].vreg != NO_REG
  }

  lemma {:induction false} WaysGood<V>(nodes: seq<Node<V>>, count: nat, vreg: int, ways: seq<Way>, b: nat)
    requires vreg != NO_REG && forall i :: 0 <= i < |ways| ==> GoodWay(nodes, count, ways[i])
    ensures GoodCopies(nodes, WaysFrom(vreg, ways, b))
  {
    if ways != [] { WaysGood(nodes, count, vreg, ways[..|ways| - 1], b); }
  }

  lemma {:induction false} CopiesGood<V>(nodes: seq<Node<V>>, count: nat, phis: seq<Phi>, b: nat)
    requires GoodPhis(nodes, count, phis)
    ensures GoodCopies(nodes, CopiesOf(phis, b))
  {
    if phis != [] {
      var n := |phis| - 1;
      CopiesGood(nodes, count, phis[..n], b);
      assert GoodPhi(nodes, count, phis[n]);
      WaysGood(nodes, count, phis[n].vreg, phis[n].ways, b);
    }
  }

  /** The moves between registers. */
  function Moves<V>(nodes: seq<Node<V>>, copies: seq<Copy>): (r: seq<PhiMove>)
    ensures |r| == |copies|
    ensures forall k :: 0 <= k < |copies| && copies[k].source < |nodes| ==>
      r[k] == PhiMove(copies[k].dst, nodes[copies[k].source].vreg)
  {
    seq(|copies|, k requires 0 <= k < |copies| =>
      PhiMove(copies[k].dst, if copies[k].source < |nodes| then nodes[copies[k].source].vreg else NO_REG))
  }

  // ----- Making the move nodes -----

  ghost predicate IsCopy<V>(nodes: seq<Node<V>>, n: nat, copy: Copy) {
    n < |nodes| && nodes[n].op == Move && nodes[n].vreg == copy.dst && nodes[n].inputs == [copy.source]
  }

  /** `tail` are the move nodes of `copies`. */
  ghost predicate AreCopies<V>(nodes: seq<Node<V>>, tail: seq<nat>, copies: seq<Copy>) {
    |tail| == |copies| && forall k :: 0 <= k < |tail| ==> IsCopy(nodes, tail[k], copies[k])
  }

  ghost predicate AllCopies<V>(nodes: seq<Node<V>>, tails: seq<seq<nat>>, phis: seq<Phi>) {
    forall b: nat :: b < |tails| ==> AreCopies(nodes, tails[b], CopiesOf(phis, b))
  }

  /** Creates the move nodes and appends them to the lists of their blocks. */
  method InsertCopies<V>(nodes0: seq<Node<V>>, count: nat, phis: seq<Phi>, filler: V)
    returns (nodes: seq<Node<V>>, tails: seq<seq<nat>>)
    requires GoodPhis(nodes0, count, phis)
    ensures nodes0 <= nodes && |tails| == count && AllCopies(nodes, tails, phis)
    ensures forall n :: |nodes0| <= n < |nodes| ==> nodes[n].op == Move
  {
    hide AreCopies;
    nodes, tails := nodes0, seq(count, _ => []);
    forall b: nat | b < count ensures AreCopies(nodes, tails[b], CopiesOf(phis[..0], b)) { NoCopies(nodes, b); }
    for p := 0 to |phis|
      invariant nodes0 <= nodes && |tails| == count && AllCopies(nodes, tails, phis[..p])
      invariant forall n :: |nodes0| <= n < |nodes| ==> nodes[n].op == Move
    {
      nodes, tails := InsertPhi(nodes, tails, phis, p, filler);
    }
    assert phis[..|phis|] == phis;
  }

  lemma NoCopies<V>(nodes: seq<Node<V>>, b: nat)
    ensures AreCopies(nodes, [], CopiesOf([], b))
  {
  }

  method InsertPhi<V>(nodes0: seq<Node<V>>, tails0: seq<seq<nat>>, phis: seq<Phi>, p: nat, filler: V)
    returns (nodes: seq<Node<V>>, tails: seq<seq<nat>>)
    requires p < |phis| && AllCopies(nodes0, tails0, phis[..p])
    ensures nodes0 <= nodes && |tails| == |tails0| && AllCopies(nodes, tails, phis[..p + 1])
    ensures forall n :: |nodes0| <= n < |nodes| ==> nodes[n].op == Move
  {
    hide AreCopies;
    nodes, tails := nodes0, tails0;
    var vreg, ways := phis[p].vreg, phis[p].ways;
    forall b: nat | b < |tails|
      ensures AreCopies(nodes, tails[b], CopiesOf(phis[..p], b) + WaysFrom(vreg, ways[..0], b))
    {
      assert CopiesOf(phis[..p], b) + [] == CopiesOf(phis[..p], b);
    }
    for i := 0 to |ways|
      invariant nodes0 <= nodes && |tails| == |tails0|
      invariant forall n :: |nodes0| <= n < |nodes| ==> nodes[n].op == Move
      invariant forall b: nat :: b < |tails| ==>
        AreCopies(nodes, tails[b], CopiesOf(phis[..p], b) + WaysFrom(vreg, ways[..i], b))
    {
      var way := ways[i];
      ghost var before, lists := nodes, tails;
      if way.source >= 0 && 0 <= way.block < |tails| {
        tails := tails[way.block := tails[way.block] + [|nodes|]];
        nodes := nodes + [Node(Move, vreg, [way.source], 0, filler)];
      }
      forall b: nat | b < |tails|
        ensures AreCopies(nodes, tails[b], CopiesOf(phis[..p], b) + WaysFrom(vreg, ways[..i + 1], b))
      {
        assert ways[..i + 1][..i] == ways[..i];
        OneMoreCopy(before, nodes, lists[b], tails[b], CopiesOf(phis[..p], b), vreg, ways, i, b);
      }
    }
    forall b: nat | b < |tails| ensures AreCopies(nodes, tails[b], CopiesOf(phis[..p + 1], b)) {
      assert phis[..p + 1][..p] == phis[..p] && ways[..|ways|] == ways;
    }
  }

  lemma OneMoreCopy<V>(before: seq<Node<V>>, nodes: seq<Node<V>>, list: seq<nat>, tail: seq<nat>, front: seq<Copy>,
                       vreg: int, ways: seq<Way>, i: nat, b: nat)
    requires i < |ways| && AreCopies(before, list, front + WaysFrom(vreg, ways[..i], b)) && before <= nodes
    requires if ways[i].source >= 0 && ways[i].block == b
             then tail == list + [|before|] && IsCopy(nodes, |before|, Copy(vreg, ways[i].source))
             else tail == list
    ensures AreCopies(nodes, tail, front + WaysFrom(vreg, ways[..i + 1], b))
  {
    assert ways[..i + 1][..i] == ways[..i];
    var more: seq<Copy> := if ways[i].source >= 0 && ways[i].block == b then [Copy(vreg, ways[i].source)] else [];
    assert front + WaysFrom(vreg, ways[..i + 1], b) == front + WaysFrom(vreg, ways[..i], b) + more;
  }

  // ----- Putting them in order -----

  /** The moves stand in an order in which every reader of a register comes before its writer, if there is one. */
  ghost predicate Sorted<V>(nodes: seq<Node<V>>, tail: seq<nat>, copies: seq<Copy>) {
    exists order :: SortedBy(nodes, tail, copies, order)
  }

  ghost predicate SortedBy<V>(nodes: seq<Node<V>>, tail: seq<nat>, copies: seq<Copy>, order: seq<nat>) {
    && ListsAll(Moves(nodes, copies), order)
    && (NoCycle(Moves(nodes, copies)) ==> ReadersFirst(Moves(nodes, copies), order))
    && |tail| == |order|
    && forall k :: 0 <= k < |order| ==> order[k] < |copies| && IsCopy(nodes, tail[k], copies[order[k]])
  }

  method SortCopies<V>(nodes: seq<Node<V>>, tail: seq<nat>, ghost copies: seq<Copy>) returns (sorted: seq<nat>)
    requires AreCopies(nodes, tail, copies) && GoodCopies(nodes, copies)
    ensures Sorted(nodes, sorted, copies)
  {
    var moves := seq(|tail|, k requires 0 <= k < |tail| =>
      PhiMove(nodes[tail[k]].vreg, nodes[nodes[tail[k]].inputs[0]].vreg));
    assert moves == Moves(nodes, copies);
    var order := OrderMoves(moves);
    sorted := seq(|order|, k requires 0 <= k < |order| => tail[order[k]]);
    assert SortedBy(nodes, sorted, copies, order);
  }

  /** The whole pass: every block's code, then its moves in order. */
  method DestroyPhis<V>(nodes0: seq<Node<V>>, code0: seq<seq<nat>>, phis: seq<Phi>, filler: V)
    returns (nodes: seq<Node<V>>, code: seq<seq<nat>>)
    requires GoodPhis(nodes0, |code0|, phis)
    ensures nodes0 <= nodes && |code| == |code0| && forall n :: |nodes0| <= n < |nodes| ==> nodes[n].op == Move
    ensures forall b: nat :: b < |code| ==> Lowered(nodes, code0[b], code[b], CopiesOf(phis, b))
  {
    hide Sorted, AreCopies;
    var tails;
    nodes, tails := InsertCopies(nodes0, |code0|, phis, filler);
    code := [];
    for b := 0 to |code0|
      invariant |code| == b && forall c: nat :: c < b ==> Lowered(nodes, code0[c], code[c], CopiesOf(phis, c))
    {
      CopiesGood(nodes0, |code0|, phis, b);
      assert GoodCopies(nodes, CopiesOf(phis, b));
      var sorted := SortCopies(nodes, tails[b], CopiesOf(phis, b));
      code := code + [code0[b] + sorted];
      assert (code0[b] + sorted)[|code0[b]|..] == sorted;
    }
  }

  ghost predicate Lowered<V>(nodes: seq<Node<V>>, before: seq<nat>, code: seq<nat>, copies: seq<Copy>) {
    before <= code && Sorted(nodes, code[|before|..], copies)
  }

  // ----- Running the moves -----

  /** The values of the pool constants. */
  ghost predicate Pools<V>(g: Graph<V>, consts: set<int>, pool: int -> V) {
    forall n :: 0 <= n < |g.nodes| && g.nodes[n].vreg in consts ==> pool(g.nodes[n].vreg) == g.nodes[n].value
  }

  /** What a reader of a register sees. */
  function View<V>(consts: set<int>, pool: int -> V, regs: int -> V): int -> V {
    r => if r in consts then pool(r) else regs(r)
  }

  ghost predicate SameView<V>(a: int -> V, b: int -> V) {
    forall r :: a(r) == b(r)
  }

  lemma {:induction false} BlockSplit<V, W>(g: Graph<V>, consts: set<int>, sem: Semantics<V, W>, args: nat -> V,
                                            a: seq<nat>, b: seq<nat>, m: Machine<V, W>)
    ensures VirtualBlock(g, consts, sem, args, a + b, m) ==
      VirtualBlock(g, consts, sem, args, b, VirtualBlock(g, consts, sem, args, a, m))
    decreases |a|
  {
    hide VirtualStep;
    if a == [] {
      assert a + b == b;
    } else {
      assert (a + b)[1..] == a[1..] + b;
      BlockSplit(g, consts, sem, args, a[1..], b, VirtualStep(g, consts, sem, args, a[0], m));
    }
  }

  lemma CopyRuns<V, W>(g: Graph<V>, consts: set<int>, sem: Semantics<V, W>, args: nat -> V, pool: int -> V,
                       n: nat, copy: Copy, m: Machine<V, W>)
    requires Pools(g, consts, pool) && IsCopy(g.nodes, n, copy) && copy.dst != NO_REG && copy.dst !in consts
    requires copy.source < |g.nodes| && g.nodes[copy.source].vreg != NO_REG
    ensures var m' := VirtualStep(g, consts, sem, args, n, m);
      && m'.world == m.world
      && SameView(View(consts, pool, m'.regs),
           Assign(View(consts, pool, m.regs), PhiMove(copy.dst, g.nodes[copy.source].vreg)))
  {
    var operands := Operands(g, consts, r => r, m.regs, n);
    assert operands == [OperandOf(g, consts, r => r, m.regs, copy.source)];
  }

  /** The move nodes run as the moves between registers do. */
  lemma {:induction false} CopiesRun<V, W>(g: Graph<V>, consts: set<int>, sem: Semantics<V, W>, args: nat -> V,
                                           pool: int -> V,
                                           tail: seq<nat>, copies: seq<Copy>, order: seq<nat>, m: Machine<V, W>)
    requires Pools(g, consts, pool) && GoodCopies(g.nodes, copies) && Registered(g.nodes, copies)
    requires forall k :: 0 <= k < |copies| ==> copies[k].dst !in consts
    requires |tail| == |order|
    requires forall k :: 0 <= k < |order| ==> order[k] < |copies| && IsCopy(g.nodes, tail[k], copies[order[k]])
    ensures var m' := VirtualBlock(g, consts, sem, args, tail, m);
      && m'.world == m.world
      && SameView(View(consts, pool, m'.regs), Sequential(Moves(g.nodes, copies), order, View(consts, pool, m.regs)))
    decreases |tail|
  {
    hide VirtualStep, View, Pools, IsCopy;
    if tail != [] {
      var n := |tail| - 1;
      var front, last := tail[..n], tail[n];
      CopiesRun(g, consts, sem, args, pool, front, copies, order[..n], m);
      var m1 := VirtualBlock(g, consts, sem, args, front, m);
      assert tail == front + [last];
      BlockSplit(g, consts, sem, args, front, [last], m);
      assert VirtualBlock(g, consts, sem, args, [last], m1) == VirtualStep(g, consts, sem, args, last, m1) by {
        assert [last][1..] == [];
      }
      var copy := copies[order[n]];
      CopyRuns(g, consts, sem, args, pool, last, copy, m1);
    }
  }

  /** The moves at the end of a block, in order, do what performing all of them at once does. */
  lemma LoweredIsParallel<V, W>(g: Graph<V>, consts: set<int>, sem: Semantics<V, W>, args: nat -> V, pool: int -> V,
                                tail: seq<nat>, copies: seq<Copy>, m: Machine<V, W>)
    requires Pools(g, consts, pool) && GoodCopies(g.nodes, copies) && Registered(g.nodes, copies)
    requires forall k :: 0 <= k < |copies| ==> copies[k].dst !in consts
    requires Sorted(g.nodes, tail, copies) && DistinctTargets(Moves(g.nodes, copies)) && NoCycle(Moves(g.nodes, copies))
    ensures var m' := VirtualBlock(g, consts, sem, args, tail, m);
      m'.world == m.world &&
        SameView(View(consts, pool, m'.regs), Parallel(Moves(g.nodes, copies), View(consts, pool, m.regs)))
  {
    hide VirtualBlock, View, Pools, IsCopy, Sequential, Parallel;
    var order :| SortedBy(g.nodes, tail, copies, order);
    CopiesRun(g, consts, sem, args, pool, tail, copies, order, m);
    var moves, regs := Moves(g.nodes, copies), View(consts, pool, m.regs);
    forall r ensures Sequential(moves, order, regs)(r) == Parallel(moves, regs)(r) {
      SequentialIsParallel(moves, order, regs, r);
    }
  }

  /** A Phi has the value of the input for the way that was taken. */
  lemma PhiReceives<V, W>(g: Graph<V>, consts: set<int>, sem: Semantics<V, W>, args: nat -> V, pool: int -> V,
                          phis: seq<Phi>, b: nat, tail: seq<nat>, p: nat, i: nat, m: Machine<V, W>)
    requires Pools(g, consts, pool) && GoodPhis(g.nodes, |g.blocks|, phis) && b < |g.blocks|
    requires Registered(g.nodes, CopiesOf(phis, b))
    requires forall k :: 0 <= k < |CopiesOf(phis, b)| ==> CopiesOf(phis, b)[k].dst !in consts
    requires Sorted(g.nodes, tail, CopiesOf(phis, b))
    requires var moves := Moves(g.nodes, CopiesOf(phis, b)); DistinctTargets(moves) && NoCycle(moves)
    requires p < |phis| && i < |phis[p].ways| && phis[p].ways[i].block == b && phis[p].ways[i].source >= 0
    ensures var m' := VirtualBlock(g, consts, sem, args, tail, m);
      && 0 <= phis[p].ways[i].source < |g.nodes| && m'.world == m.world
      && m'.regs(phis[p].vreg) == View(consts, pool, m.regs)(g.nodes[phis[p].ways[i].source].vreg)
  {
    hide VirtualBlock, Pools, Sorted, NoCycle;
    var copies := CopiesOf(phis, b);
    var moves := Moves(g.nodes, copies);
    var copy := Copy(phis[p].vreg, phis[p].ways[i].source);
    CopiesGood(g.nodes, |g.blocks|, phis, b);
    CopyIsThere(phis, b, p, i);
    var k :| 0 <= k < |copies| && copies[k] == copy;
    assert moves[k].dst == copy.dst;
    LoweredIsParallel(g, consts, sem, args, pool, tail, copies, m);
    var w := Writer(moves, copy.dst);
    assert w == k;
    var m' := VirtualBlock(g, consts, sem, args, tail, m);
    assert View(consts, pool, m'.regs)(copy.dst) == Parallel(moves, View(consts, pool, m.regs))(copy.dst);
  }

  /** On the frame: when a block has run to its end, the place of a Phi that the next block needs holds the value that
      the Phi's input had on virtual registers before the moves. */
  lemma FrameReceives<V, W>(g: Graph<V>, consts: set<int>, a: Allocation, sem: Semantics<V, W>, args: nat -> V,
                            pool: int -> V,
                            phis: seq<Phi>, before: seq<nat>, stack: seq<nat>, b: nat, next: nat, p: nat, i: nat,
                            v: Machine<V, W>, frame: Machine<V, W>)
    requires g.Valid() && consts == g.PlainConstants() && Faithful(g, consts, a) && ParametersFirst(g, consts)
    requires Pools(g, consts, pool) && GoodPhis(g.nodes, |g.blocks|, phis) && b < |g.blocks|
    requires Registered(g.nodes, CopiesOf(phis, b))
    requires forall k :: 0 <= k < |CopiesOf(phis, b)| ==> CopiesOf(phis, b)[k].dst !in consts
    requires Lowered(g.nodes, before, g.Instructions(b), CopiesOf(phis, b))
    requires var moves := Moves(g.nodes, CopiesOf(phis, b)); DistinctTargets(moves) && NoCycle(moves)
    requires p < |phis| && i < |phis[p].ways| && phis[p].ways[i].block == b && phis[p].ways[i].source >= 0
    requires Agree(a.color, a.liveIn[b], v, frame) && EntryIntact(g, consts, args, b, 0, frame)
    requires Carries(g, consts, a, stack, Visit(b, |g.Instructions(b)|, false), next) && phis[p].vreg in a.liveIn[next]
    ensures var m := VirtualBlock(g, consts, sem, args, before, v);
      var frame' := PhysicalVisit(g, consts, sem, args, Place(a.color), Visit(b, |g.Instructions(b)|, false), frame);
      && 0 <= phis[p].ways[i].source < |g.nodes|
      && frame'.regs(Place(a.color)(phis[p].vreg)) == View(consts, pool, m.regs)(g.nodes[phis[p].ways[i].source].vreg)
  {
    hide VirtualBlock, PhysicalBlock, Pools, Sorted, NoCycle, Faithful, Carries, View, ParametersFirst, EntryIntact;
    var code := g.Instructions(b);
    var x, tail := Visit(b, |code|, false), code[|before|..];
    assert code == before + tail && code[..|code|] == code;
    VisitAgrees(g, consts, a, sem, args, stack, x, v, frame);
    BlockSplit(g, consts, sem, args, before, tail, v);
    PhiReceives(g, consts, sem, args, pool, phis, b, tail, p, i, VirtualBlock(g, consts, sem, args, before, v));
  }
}
