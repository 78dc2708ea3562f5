/** The whole way from a symbolic expression to an allocated function, and what running it gives
    (src/cas/SymIRCodegen.cpp:16-138 with src/compiler/RegisterAllocator.cpp:29-561). */
module SymbolicCompiler {
  import opened AllocatorIR
  import opened SymbolicCodegen
  import opened CodegenMeaning
  import Liveness
  import opened RegisterAllocator
  import opened AllocationMeaning
  import opened HandlerStacks
  import Schedule = BlockSchedule
  import DepthFirstOrder

  datatype Compiled<V> = UnknownName(name: nat) | Program(graph: Graph<V>, allocation: Allocation)

  // ----- The program as a list of nodes -----

  /** The node of each parameter; a repeated name stands for its last declaration. */
  function ParamMap(names: seq<nat>): (r: map<nat, nat>)
    ensures forall x :: x in r ==> 1 <= r[x] <= |names|
  {
    if names == [] then map[] else ParamMap(names[..|names| - 1])[names[|names| - 1] := |names|]
  }

  /** Each name is mapped to its last position. */
  lemma {:induction false} ParamMapLast(names: seq<nat>)
    ensures forall x :: x in ParamMap(names) <==> x in names
    ensures forall x :: x in ParamMap(names) ==> names[ParamMap(names)[x] - 1] == x && x !in names[ParamMap(names)[x]..]
  {
    if names != [] {
      var front, last := names[..|names| - 1], names[|names| - 1];
      ParamMapLast(front);
      assert names == front + [last];
      forall x | x in ParamMap(names) ensures names[ParamMap(names)[x] - 1] == x && x !in names[ParamMap(names)[x]..] {
        if x != last { assert names[ParamMap(names)[x]..] == front[ParamMap(names)[x]..] + [last]; }
      }
    }
  }

  function ParamNodes<V>(names: seq<nat>, filler: V): (r: seq<Node<V>>)
    ensures |r| == |names|
  {
    seq(|names|, i requires 0 <= i => ValueNode(Parameter, i + 1, [], i, filler))
  }

  function StartNode<V>(filler: V): Node<V> {
    Node(Other(START), NO_REG, [], 0, filler)
  }

  function ReturnNode<V>(value: nat, filler: V): Node<V> {
    Node(Other(RETURN), NO_REG, [value], 0, filler)
  }

  function BodyCode<V, W>(e: Expr<V>, names: seq<nat>, ops: Ops<V, W>): Code<V> {
    Emitted(e, ParamMap(names), |names| + 1, ops)
  }

  /** The position of the return. */
  function ReturnAt<V, W>(e: Expr<V>, names: seq<nat>, ops: Ops<V, W>): nat
    requires BodyCode(e, names, ops).Code?
  {
    1 + |names| + |BodyCode(e, names, ops).nodes|
  }

  function ProgramNodes<V, W>(e: Expr<V>, names: seq<nat>, ops: Ops<V, W>): (r: seq<Node<V>>)
    requires BodyCode(e, names, ops).Code?
    ensures |r| == ReturnAt(e, names, ops) + 1
  {
    var body := BodyCode(e, names, ops);
    [StartNode(ops.zero)] + ParamNodes(names, ops.zero) + body.nodes + [ReturnNode(body.result, ops.zero)]
  }

  function Upward(count: nat): (r: seq<nat>)
    ensures |r| == count && forall i :: 0 <= i < count ==> r[i] == i
  {
    seq(count, i requires 0 <= i => i)
  }

  /** Two blocks: everything but the return in creation order, and the return. */
  ghost predicate IsProgram<V, W>(e: Expr<V>, names: seq<nat>, ops: Ops<V, W>, g: Graph<V>) {
    && BodyCode(e, names, ops).Code? && g.nodes == ProgramNodes(e, names, ops) && g.captured == {}
    && var k := ReturnAt(e, names, ops); g.blocks == [Block(Upward(k), [1]), Block([k], [])]
  }

  // ----- The shape of emitted nodes -----

  /** A node that uses earlier nodes only, with the register of its position. */
  ghost predicate Shaped<V>(node: Node<V>, at: nat) {
    && at > 0 && node.vreg == at - 1 && (node.op.Constant? || (node.op.Other? && node.op.code <= CALL))
    && (node.op.Constant? ==> node.inputs == [])
    && forall i :: 0 <= i < |node.inputs| ==> node.inputs[i] < at
  }

  ghost predicate AllShaped<V>(nodes: seq<Node<V>>, from: nat) {
    forall k :: 0 <= k < |nodes| ==> Shaped(nodes[k], from + k)
  }

  lemma ShapedConcat<V>(a: seq<Node<V>>, b: seq<Node<V>>, from: nat)
    requires AllShaped(a, from) && AllShaped(b, from + |a|)
    ensures AllShaped(a + b, from)
  {
    hide Shaped;
    forall k | 0 <= k < |a + b| ensures Shaped((a + b)[k], from + k) {
      if k >= |a| { assert (a + b)[k] == b[k - |a|]; }
    }
  }

  lemma ShapedOne<V>(node: Node<V>, at: nat)
    requires Shaped(node, at)
    ensures AllShaped([node], at)
  {
  }

  ghost predicate ParamsBelow(params: map<nat, nat>, n: nat) {
    n > 0 && forall x :: x in params ==> params[x] < n
  }

  lemma {:induction false} EmittedShape<V, W>(e: Expr<V>, params: map<nat, nat>, n: nat, ops: Ops<V, W>)
    requires ParamsBelow(params, n) && Emitted(e, params, n, ops).Code?
    ensures var code := Emitted(e, params, n, ops); AllShaped(code.nodes, n) && code.result < n + |code.nodes|
    decreases e, 2
  {
    hide AllShaped;
    match e
    case Number(v) => ShapedOne(ConstantNode(n, v), n);
    case Variable(x) => NothingShaped<V>(n);
    case Add(list) => AllShape(ADD, list, ops.zero, params, n, ops);
    case Mul(list) => AllShape(MUL, list, ops.one, params, n, ops);
    case Pow(b, x) =>
      PowUnfolds(b, x, params, n, ops);
      var first := Emitted(if ops.exponentFirst then x else b, params, n, ops);
      var k1 := n + |first.nodes|;
      var second := Emitted(if ops.exponentFirst then b else x, params, k1, ops);
      var k2 := k1 + |second.nodes|;
      EmittedShape(if ops.exponentFirst then x else b, params, n, ops);
      EmittedShape(if ops.exponentFirst then b else x, params, k1, ops);
      ShapedOne(PowNode(k2, first.result, second.result, ops), k2);
      ShapedConcat(first.nodes, second.nodes, n);
      ShapedConcat(first.nodes + second.nodes, [PowNode(k2, first.result, second.result, ops)], n);
    case Func(name, list) =>
      var code := EmittedArgs(list, params, n + 1, ops);
      var at := n + 1 + |code.nodes|;
      var globalNode := ValueNode(Other(GET_GLOBAL), n, [], name, ops.zero);
      var callNode := ValueNode(Other(CALL), at, [n] + code.results, |code.results|, ops.zero);
      ArgsShape(list, params, n + 1, ops);
      ShapedOne(globalNode, n);
      ShapedOne(callNode, at);
      ShapedConcat([globalNode], code.nodes, n);
      ShapedConcat([globalNode] + code.nodes, [callNode], n);
  }

  lemma NothingShaped<V>(n: nat)
    ensures AllShaped<V>([], n)
  {
  }

  lemma {:induction false} AllShape<V, W>(op: nat, list: Exprs<V>, neutral: V, params: map<nat, nat>, n: nat,
                                          ops: Ops<V, W>)
    requires ParamsBelow(params, n) && op <= POW && EmittedAll(op, list, neutral, params, n, ops).Code?
    ensures var code := EmittedAll(op, list, neutral, params, n, ops);
      AllShaped(code.nodes, n) && code.result < n + |code.nodes|
    decreases list, 1
  {
    hide AllShaped;
    match list
    case Nil => ShapedOne(ConstantNode(n, neutral), n);
    case Cons(first, rest) =>
      var code := Emitted(first, params, n, ops);
      EmittedShape(first, params, n, ops);
      RestShape(op, rest, code.result, params, n + |code.nodes|, ops);
      ShapedConcat(code.nodes, EmittedRest(op, rest, code.result, params, n + |code.nodes|, ops).nodes, n);
  }

  lemma {:induction false} RestShape<V, W>(op: nat, list: Exprs<V>, acc: nat, params: map<nat, nat>, n: nat, ops: Ops<V,
                                           W>)
    requires ParamsBelow(params, n) && op <= POW && acc < n && EmittedRest(op, list, acc, params, n, ops).Code?
    ensures var code := EmittedRest(op, list, acc, params, n, ops);
      AllShaped(code.nodes, n) && code.result < n + |code.nodes|
    decreases list, 0
  {
    hide AllShaped;
    match list
    case Nil => NothingShaped<V>(n);
    case Cons(next, rest) =>
      var code := Emitted(next, params, n, ops);
      var k := n + |code.nodes|;
      var node := BinaryNode(op, k, acc, code.result, ops.zero);
      EmittedShape(next, params, n, ops);
      ShapedOne(node, k);
      RestShape(op, rest, k, params, k + 1, ops);
      ShapedConcat(code.nodes, [node], n);
      ShapedConcat(code.nodes + [node], EmittedRest(op, rest, k, params, k + 1, ops).nodes, n);
  }

  lemma {:induction false} ArgsShape<V, W>(list: Exprs<V>, params: map<nat, nat>, n: nat, ops: Ops<V, W>)
    requires ParamsBelow(params, n) && EmittedArgs(list, params, n, ops).ArgCode?
    ensures var code := EmittedArgs(list, params, n, ops);
      AllShaped(code.nodes, n) && forall i :: 0 <= i < |code.results| ==> code.results[i] < n + |code.nodes|
    decreases list, 0
  {
    hide AllShaped;
    match list
    case Nil => NothingShaped<V>(n);
    case Cons(first, rest) =>
      var code := Emitted(first, params, n, ops);
      EmittedShape(first, params, n, ops);
      ArgsShape(rest, params, n + |code.nodes|, ops);
      ShapedConcat(code.nodes, EmittedArgs(rest, params, n + |code.nodes|, ops).nodes, n);
  }

  /** What every node of a program looks like. */
  ghost predicate Layout<V>(nodes: seq<Node<V>>, count: nat) {
    && |nodes| >= count + 2 && nodes[0].op == Other(START) && nodes[0].vreg == NO_REG && nodes[0].inputs == []
    && (forall i: nat :: 1 <= i <= count ==>
         nodes[i].op == Parameter && nodes[i].vreg == i - 1 && nodes[i].inputs == [] && nodes[i].payload == i - 1)
    && (forall i: nat :: count < i < |nodes| - 1 ==> Shaped(nodes[i], i))
    && nodes[|nodes| - 1].op == Other(RETURN) && nodes[|nodes| - 1].vreg == NO_REG && |nodes[|nodes| - 1].inputs| == 1
    && nodes[|nodes| - 1].inputs[0] < |nodes| - 1
  }

  lemma ProgramLayout<V, W>(e: Expr<V>, names: seq<nat>, ops: Ops<V, W>)
    requires BodyCode(e, names, ops).Code?
    ensures Layout(ProgramNodes(e, names, ops), |names|)
  {
    hide Shaped, Emitted;
    var nodes, body := ProgramNodes(e, names, ops), BodyCode(e, names, ops);
    EmittedShape(e, ParamMap(names), |names| + 1, ops);
    forall i: nat | |names| < i < |nodes| - 1 ensures Shaped(nodes[i], i) {
      assert nodes[i] == body.nodes[i - 1 - |names|];
    }
    forall i: nat | 1 <= i <= |names| ensures nodes[i] == ValueNode(Parameter, i, [], i - 1, ops.zero) {
      assert nodes[i] == ParamNodes(names, ops.zero)[i - 1];
    }
  }

  // ----- The allocator's preconditions -----

  lemma LayoutFacts<V>(nodes: seq<Node<V>>, count: nat, i: nat)
    requires Layout(nodes, count) && i < |nodes|
    ensures nodes[i].vreg == i - 1 || nodes[i].vreg == NO_REG
    ensures 0 < i < |nodes| - 1 ==> nodes[i].vreg == i - 1
    ensures nodes[i].op.Parameter? <==> 1 <= i <= count
    ensures !nodes[i].op.Move? && !nodes[i].op.TryBegin? && !nodes[i].op.TryEnd? && !nodes[i].op.Catch?
    ensures nodes[i].op.Constant? ==> count < i < |nodes| - 1 && nodes[i].inputs == []
    ensures nodes[i].op.Parameter? ==> nodes[i].inputs == [] && nodes[i].payload == i - 1
    ensures forall k :: 0 <= k < |nodes[i].inputs| ==> nodes[i].inputs[k] < i
  {
    if count < i < |nodes| - 1 { assert Shaped(nodes[i], i); }
  }

  /** The shape of a program as a graph. */
  ghost predicate ProgramGraph<V>(g: Graph<V>, count: nat) {
    && Layout(g.nodes, count) && g.captured == {}
    && g.blocks == [Block(Upward(|g.nodes| - 1), [1]), Block([|g.nodes| - 1], [])]
  }

  lemma ProgramIsGraph<V, W>(e: Expr<V>, names: seq<nat>, ops: Ops<V, W>, g: Graph<V>)
    requires IsProgram(e, names, ops, g)
    ensures ProgramGraph(g, |names|)
  {
    ProgramLayout(e, names, ops);
  }

  lemma ProgramValid<V>(g: Graph<V>, count: nat)
    requires ProgramGraph(g, count)
    ensures g.Valid() && Numbered(g) && ConstsMatch(g, g.PlainConstants())
  {
    hide Layout;
    forall i: nat | i < |g.nodes| ensures
      && (g.nodes[i].vreg == i - 1 || g.nodes[i].vreg == NO_REG) && !g.nodes[i].op.Move?
      && (g.nodes[i].op.Constant? || g.nodes[i].op.Parameter? ==> g.nodes[i].inputs == [])
      && (g.nodes[i].op.Parameter? ==> g.nodes[i].payload == i - 1)
      && (forall k :: 0 <= k < |g.nodes[i].inputs| ==> g.nodes[i].inputs[k] < |g.nodes|)
    {
      LayoutFacts(g.nodes, count, i);
    }
  }

  lemma ProgramParametersFirst<V>(g: Graph<V>, count: nat)
    requires ProgramGraph(g, count)
    ensures ParametersFirst(g, g.PlainConstants())
  {
    hide Layout;
    var consts := g.PlainConstants();
    forall b: nat, k: nat {:trigger g.IsParameter(g.Instructions(b)[k])}
      | b < |g.blocks| && k < |g.Instructions(b)| && g.IsParameter(g.Instructions(b)[k])
      ensures b == 0 && QuietUpTo(g, consts, k)
    {
      LayoutFacts(g.nodes, count, g.Instructions(b)[k]);
      LayoutCount(g.nodes, count);
      forall i | 0 <= i < k && i < |g.Instructions(0)| ensures Quiet(g, consts, g.Instructions(0)[i]) {
        LayoutFacts(g.nodes, count, i);
        LayoutStart(g.nodes, count);
      }
    }
  }

  lemma LayoutCount<V>(nodes: seq<Node<V>>, count: nat)
    requires Layout(nodes, count)
    ensures |nodes| >= count + 2
  {
  }

  lemma LayoutStart<V>(nodes: seq<Node<V>>, count: nat)
    requires Layout(nodes, count)
    ensures nodes[0].vreg == NO_REG
  {
  }

  // ----- Nothing is live on entry -----

  /** Up to instruction `k`, the first block defines the registers below k - 1, constants aside, and uses nothing. */
  lemma {:induction false} EntryScan<V>(g: Graph<V>, count: nat, consts: set<int>, k: nat)
    requires ProgramGraph(g, count) && consts == g.PlainConstants() && k <= |g.nodes| - 1 && k <= |g.Instructions(0)|
    ensures forall v: nat :: v < k - 1 && v !in consts ==> v in Liveness.DefsUpTo(g, consts, 0, k)
    ensures Liveness.UsesUpTo(g, consts, 0, k) == {}
  {
    hide Layout;
    if k > 0 {
      EntryScan(g, count, consts, k - 1);
      var n := g.Instructions(0)[k - 1];
      assert n == k - 1;
      LayoutFacts(g.nodes, count, n);
      LayoutCount(g.nodes, count);
      forall v | v in g.Reads(consts, n) ensures v in Liveness.DefsUpTo(g, consts, 0, k - 1) {
        var i :| 0 <= i < |g.nodes[n].inputs| && g.nodes[g.nodes[n].inputs[i]].vreg == v && v != NO_REG && v !in consts;
        LayoutFacts(g.nodes, count, g.nodes[n].inputs[i]);
      }
      assert Liveness.UsesUpTo(g, consts, 0, k) == {} by {
        forall v ensures v !in Liveness.UsesUpTo(g, consts, 0, k) { }
      }
    }
  }

  lemma NoTryBlocks<V>(g: Graph<V>, count: nat, h: nat, c: nat)
    requires ProgramGraph(g, count)
    ensures !Liveness.Guards(g, h, c)
  {
    hide Layout, Liveness.InRegion;
    if Liveness.Guards(g, h, c) {
      var t: nat :| t < |g.blocks| && Liveness.StartsWith(g, t, TryBegin) && Liveness.HandlerFrom(g, g.Succs(t)) == h &&
        Liveness.InRegion(g, t, h, c);
      LayoutCount(g.nodes, count);
      LayoutFacts(g.nodes, count, g.Instructions(t)[0]);
    }
  }

  /** The return's operand is defined in the first block. */
  lemma LiveInEmpty<V>(g: Graph<V>, count: nat, a: Allocation)
    requires ProgramGraph(g, count) && g.Valid() && FlowsLive(g, g.PlainConstants(), a) && NothingSpurious(g, a)
    requires forall c, h: nat :: 0 <= c < |g.blocks| ==> (h in a.extra[c] <==> Liveness.Guards(g, h, c))
    ensures EntryOnce(g, a) && a.liveIn[0] == {}
  {
    hide Layout, Liveness.Guards;
    var consts, last := g.PlainConstants(), |g.nodes| - 1;
    LayoutCount(g.nodes, count);
    forall c: nat, h: nat | c < |g.blocks| ensures h !in a.extra[c] { NoTryBlocks(g, count, h, c); }
    EntryScan(g, count, consts, last);
    forall v ensures v !in a.liveIn[0] {
      if v in a.liveIn[0] { LiveFromReturn(g, count, a, v); }
    }
    assert a.liveIn[0] == {};
    forall b: nat | b < |g.blocks| ensures !Liveness.Flows(g, a.extra, b, 0) { }
  }

  /** What is live at the end of the first block is used by the return, hence defined before. */
  lemma LiveFromReturn<V>(g: Graph<V>, count: nat, a: Allocation, v: int)
    requires ProgramGraph(g, count) && FlowsLive(g, g.PlainConstants(), a) && NothingSpurious(g, a)
    requires forall c, h: nat :: 0 <= c < |g.blocks| ==> h !in a.extra[c]
    ensures v in a.liveOut[0] ==> v in Liveness.Def(g, g.PlainConstants(), 0)
  {
    hide Layout, Liveness.UsesUpTo, Liveness.DefsUpTo;
    forall u ensures !Wanted(g, a, 1, u) { }
    assert forall u :: u !in a.liveOut[1];
    if v in a.liveOut[0] {
      assert Wanted(g, a, 0, v);
      assert v in a.liveIn[1];
      ReturnUses(g, count, g.PlainConstants(), v);
    }
  }

  lemma ReturnUses<V>(g: Graph<V>, count: nat, consts: set<int>, v: int)
    requires ProgramGraph(g, count) && consts == g.PlainConstants() && v in Liveness.Use(g, consts, 1)
    ensures v in Liveness.Def(g, consts, 0)
  {
    hide Layout;
    var last := |g.nodes| - 1;
    LayoutCount(g.nodes, count);
    EntryScan(g, count, consts, last);
    assert g.Instructions(1) == [last];
    assert Liveness.UsesUpTo(g, consts, 1, 0) == {};
    assert v in g.Reads(consts, last);
    LayoutFacts(g.nodes, count, last);
    var i :| 0 <= i < |g.nodes[last].inputs| && g.nodes[g.nodes[last].inputs[i]].vreg == v && v != NO_REG &&
      v !in consts;
    LayoutFacts(g.nodes, count, last);
    LayoutFacts(g.nodes, count, g.nodes[last].inputs[i]);
  }

  // ----- Running the program -----

  /** Running a stretch of a block is running its nodes one after the other. */
  lemma {:induction false} BlockIsExec<V, W>(g: Graph<V>, consts: set<int>, ops: Ops<V, W>, args: nat -> V,
                                             code: seq<nat>, from: nat, m: Machine<V, W>)
    requires forall i :: 0 <= i < |code| ==> code[i] == from + i
    ensures VirtualBlock(g, consts, Meaning(g, ops), args, code, m) ==
      Exec(g, consts, ops, args, from, from + |code|, m)
    decreases |code|
  {
    hide VirtualStep;
    if code != [] {
      BlockIsExec(g, consts, ops, args, code[1..], from + 1, VirtualStep(g, consts, Meaning(g, ops), args, from, m));
    }
  }

  /** The value of a variable: the argument at the position of its parameter. */
  function Env<V>(names: seq<nat>, args: nat -> V, filler: V): nat -> V {
    x => if x in ParamMap(names) then args(ParamMap(names)[x] - 1) else filler
  }

  /** The start node does nothing. */
  lemma StartRuns<V, W>(g: Graph<V>, count: nat, ops: Ops<V, W>, args: nat -> V, m: Machine<V, W>)
    requires ProgramGraph(g, count) && Numbered(g) && ConstsMatch(g, g.PlainConstants())
    ensures Exec(g, g.PlainConstants(), ops, args, 0, 1, m).world == m.world
  {
    hide VirtualStep, Seen, Exec;
    ExecOne(g, g.PlainConstants(), ops, args, 0, m);
    StepShows(g, g.PlainConstants(), ops, args, 0, m);
  }

  /** After the first `k` parameters, each shows its argument. */
  lemma {:induction false} ParametersRun<V, W>(g: Graph<V>, count: nat, ops: Ops<V, W>, args: nat -> V, m: Machine<V,
                                               W>, k: nat)
    requires ProgramGraph(g, count) && Numbered(g) && ConstsMatch(g, g.PlainConstants()) && k <= count
    ensures var m' := Exec(g, g.PlainConstants(), ops, args, 0, k + 1, m);
      m'.world == m.world && forall i: nat :: 1 <= i <= k ==>
        Seen(g, g.PlainConstants(), m'.regs, i) == Given(args(i - 1))
  {
    hide VirtualStep, Seen, Exec, Shaped, ConstsMatch, Numbered;
    var consts := g.PlainConstants();
    if k == 0 {
      StartRuns(g, count, ops, args, m);
    } else {
      ParametersRun(g, count, ops, args, m, k - 1);
      var before := Exec(g, consts, ops, args, 0, k, m);
      ExecSplit(g, consts, ops, args, 0, k, k + 1, m);
      ExecOne(g, consts, ops, args, k, before);
      StepShows(g, consts, ops, args, k, before);
    }
  }

  lemma ParamsShown<V, W>(g: Graph<V>, names: seq<nat>, ops: Ops<V, W>, args: nat -> V, m: Machine<V, W>)
    requires ProgramGraph(g, |names|) && Numbered(g) && ConstsMatch(g, g.PlainConstants())
    ensures var m' := Exec(g, g.PlainConstants(), ops, args, 0, |names| + 1, m);
      m'.world == m.world && Ready(g, g.PlainConstants(), m', ParamMap(names), Env(names, args, ops.zero), |names| + 1)
  {
    hide Seen, Exec, Layout, ConstsMatch, Numbered;
    ParametersRun(g, |names|, ops, args, m, |names|);
  }

  lemma ProgramHolds<V, W>(e: Expr<V>, names: seq<nat>, ops: Ops<V, W>, g: Graph<V>)
    requires IsProgram(e, names, ops, g)
    ensures Holds(g, |names| + 1, BodyCode(e, names, ops).nodes)
    ensures g.nodes[|g.nodes| - 1].inputs == [BodyCode(e, names, ops).result]
    ensures |g.nodes| - 1 == ReturnAt(e, names, ops)
  {
    hide Emitted;
    var body, n := BodyCode(e, names, ops).nodes, |names| + 1;
    forall k | 0 <= k < |body| ensures g.nodes[n + k] == body[k] { }
  }

  /** The straight-line code before the return computes the expression. */
  lemma BodyRuns<V, W>(e: Expr<V>, names: seq<nat>, ops: Ops<V, W>, g: Graph<V>, args: nat -> V, m: Machine<V, W>)
    requires IsProgram(e, names, ops, g)
    ensures var k := ReturnAt(e, names, ops);
      var m' := Exec(g, g.PlainConstants(), ops, args, 0, k, m);
      var value := Eval(e, Env(names, args, ops.zero), ops, m.world);
      m'.world == value.1 && Seen(g, g.PlainConstants(), m'.regs, BodyCode(e, names, ops).result) == Given(value.0)
  {
    hide *;
    ProgramIsGraph(e, names, ops, g);
    ProgramValid(g, |names|);
    ProgramHolds(e, names, ops, g);
    ProgramCode(e, names, ops, g);
    BodyRunsFrom(e, names, ops, g, args, m);
  }

  lemma ProgramCode<V, W>(e: Expr<V>, names: seq<nat>, ops: Ops<V, W>, g: Graph<V>)
    requires IsProgram(e, names, ops, g)
    ensures BodyCode(e, names, ops).Code?
  {
    hide Emitted;
  }

  lemma BodyRunsFrom<V, W>(e: Expr<V>, names: seq<nat>, ops: Ops<V, W>, g: Graph<V>, args: nat -> V, m: Machine<V, W>)
    requires ProgramGraph(g, |names|) && Numbered(g) && ConstsMatch(g, g.PlainConstants())
    requires BodyCode(e, names, ops).Code? && Holds(g, |names| + 1, BodyCode(e, names, ops).nodes)
    ensures var k := ReturnAt(e, names, ops);
      var m' := Exec(g, g.PlainConstants(), ops, args, 0, k, m);
      var value := Eval(e, Env(names, args, ops.zero), ops, m.world);
      m'.world == value.1 && Seen(g, g.PlainConstants(), m'.regs, BodyCode(e, names, ops).result) == Given(value.0)
  {
    hide Seen, Exec, Emitted, Eval, Holds, Ready, ProgramGraph, Numbered, ConstsMatch, ParamMap, Env;
    var consts, n, k := g.PlainConstants(), |names| + 1, ReturnAt(e, names, ops);
    ParamsShown(g, names, ops, args, m);
    var m1 := Exec(g, consts, ops, args, 0, n, m);
    EmitMeans(e, ParamMap(names), n, ops, g, consts, args, Env(names, args, ops.zero), m1);
    ExecSplit(g, consts, ops, args, 0, n, k, m);
  }

  /** The path of a call: the body, then the return. */
  function CallPath(k: nat): seq<Visit> {
    [Visit(0, k, false), Visit(1, 1, false)]
  }

  /** The run ends in the world that evaluation leaves, and the return sees the value of the expression. */
  ghost predicate Returns<V, W>(m: Machine<V, W>, k: nat, result: (V, W)) {
    m.world == result.1 && |m.trace| > 0 && m.trace[|m.trace| - 1] == Event(k, [Given(result.0)])
  }

  lemma VirtualReturns<V, W>(e: Expr<V>, names: seq<nat>, ops: Ops<V, W>, g: Graph<V>, args: nat -> V, m: Machine<V, W>)
    requires IsProgram(e, names, ops, g)
    ensures var k := ReturnAt(e, names, ops);
      Returns(VirtualRun(g, g.PlainConstants(), Meaning(g, ops), args, CallPath(k), m), k,
        Eval(e, Env(names, args, ops.zero), ops, m.world))
  {
    hide *;
    ProgramCode(e, names, ops, g);
    var consts, k := g.PlainConstants(), ReturnAt(e, names, ops);
    BodyRuns(e, names, ops, g, args, m);
    ProgramHolds(e, names, ops, g);
    ProgramIsGraph(e, names, ops, g);
    var m1 := Exec(g, consts, ops, args, 0, k, m);
    ReturnStep(e, names, ops, g, args, m1, k);
    RunsThrough(g, |names|, consts, ops, args, m, k);
    ReturnsIntro(VirtualStep(g, consts, Meaning(g, ops), args, k, m1), k,
      Eval(e, Env(names, args, ops.zero), ops, m.world));
  }

  lemma ReturnsIntro<V, W>(m: Machine<V, W>, k: nat, result: (V, W))
    requires m.world == result.1 && |m.trace| > 0 && m.trace[|m.trace| - 1] == Event(k, [Given(result.0)])
    ensures Returns(m, k, result)
  {
  }

  /** The call runs all nodes in creation order. */
  lemma RunsThrough<V, W>(g: Graph<V>, count: nat, consts: set<int>, ops: Ops<V, W>, args: nat -> V, m: Machine<V, W>,
                          k: nat)
    requires ProgramGraph(g, count) && k == |g.nodes| - 1
    ensures VirtualRun(g, consts, Meaning(g, ops), args, CallPath(k), m) ==
      VirtualStep(g, consts, Meaning(g, ops), args, k, Exec(g, consts, ops, args, 0, k, m))
  {
    hide Layout, VirtualStep, Exec, Meaning;
    var sem := Meaning(g, ops);
    var code := Upward(k);
    assert g.Instructions(0) == code && code[..k] == code;
    BlockIsExec(g, consts, ops, args, code, 0, m);
    var m1 := Exec(g, consts, ops, args, 0, k, m);
    assert VirtualVisit(g, consts, sem, args, Visit(0, k, false), m) == m1;
    assert g.Instructions(1) == [k] && [k][..1] == [k] && [k][1..] == [];
    OneStep(g, consts, sem, args, k, m1);
    assert VirtualVisit(g, consts, sem, args, Visit(1, 1, false), m1) == VirtualStep(g, consts, sem, args, k, m1);
    RunTwo(g, consts, sem, args, Visit(0, k, false), Visit(1, 1, false), m);
  }

  lemma RunTwo<V, W>(g: Graph<V>, consts: set<int>, sem: Semantics<V, W>, args: nat -> V, x: Visit, y: Visit,
                     m: Machine<V, W>)
    ensures VirtualRun(g, consts, sem, args, [x, y], m) ==
      VirtualVisit(g, consts, sem, args, y, VirtualVisit(g, consts, sem, args, x, m))
  {
    hide VirtualVisit;
    assert [x, y][1..] == [y] && [y][1..] == [];
    var m1 := VirtualVisit(g, consts, sem, args, x, m);
    assert VirtualRun(g, consts, sem, args, [y], m1) ==
      VirtualRun(g, consts, sem, args, [], VirtualVisit(g, consts, sem, args, y, m1));
  }

  lemma OneStep<V, W>(g: Graph<V>, consts: set<int>, sem: Semantics<V, W>, args: nat -> V, k: nat, m: Machine<V, W>)
    ensures VirtualBlock(g, consts, sem, args, [k], m) == VirtualStep(g, consts, sem, args, k, m)
  {
    hide VirtualStep;
    assert [k][1..] == [];
  }

  lemma ReturnStep<V, W>(e: Expr<V>, names: seq<nat>, ops: Ops<V, W>, g: Graph<V>, args: nat -> V, m: Machine<V, W>,
                         k: nat)
    requires IsProgram(e, names, ops, g) && k == ReturnAt(e, names, ops)
    requires g.nodes[k].inputs == [BodyCode(e, names, ops).result]
    requires Seen(g, g.PlainConstants(), m.regs, BodyCode(e, names, ops).result).Given?
    ensures var m' := VirtualStep(g, g.PlainConstants(), Meaning(g, ops), args, k, m);
      m'.world == m.world && |m'.trace| > 0
      && m'.trace[|m'.trace| - 1] == Event(k, [Seen(g, g.PlainConstants(), m.regs, BodyCode(e, names, ops).result)])
  {
    hide Emitted, Seen, OperandOf;
    var consts, r := g.PlainConstants(), BodyCode(e, names, ops).result;
    var operands := Operands(g, consts, x => x, m.regs, k);
    SeenIs(g, consts, m.regs, r);
    assert operands == [Seen(g, consts, m.regs, r)];
    assert g.nodes[k] == ReturnNode(r, ops.zero);
  }

  lemma SeenIs<V>(g: Graph<V>, consts: set<int>, regs: int -> V, r: nat)
    ensures OperandOf(g, consts, x => x, regs, r) == Seen(g, consts, regs, r)
  {
  }

  /** All that the allocator promises. */
  ghost predicate Allocated<V>(g: Graph<V>, a: Allocation) {
    Faithful(g, g.PlainConstants(), a) && NothingSpurious(g, a) && ExactHandlers(g, a)
  }

  /** The compiled function computes the expression: on the frame, with the arguments in their slots and anything in
      the other registers, the return sees the value that evaluating the expression gives, in the same final world. */
  lemma CompiledComputes<V, W>(e: Expr<V>, names: seq<nat>, ops: Ops<V, W>, g: Graph<V>, a: Allocation, args: nat -> V,
                               frame: int -> V, w: W)
    requires IsProgram(e, names, ops, g) && Allocated(g, a)
    requires forall i: nat :: i < |names| ==> frame(i) == args(i)
    ensures var k := ReturnAt(e, names, ops);
      Returns(PhysicalRun(g, g.PlainConstants(), Meaning(g, ops), args, Place(a.color), CallPath(k),
        Machine(frame, w, [])), k,
              Eval(e, Env(names, args, ops.zero), ops, w))
  {
    var consts, k := g.PlainConstants(), ReturnAt(e, names, ops);
    ProgramIsGraph(e, names, ops, g);
    ProgramValid(g, |names|);
    ProgramParametersFirst(g, |names|);
    LiveInEmpty(g, |names|, a);
    ArgumentsThere(g, |names|, args, frame);
    CallIsRun(g, |names|, k);
    NoHandlers(g, |names|, a);
    VirtualReturns(e, names, ops, g, args, Machine(frame, w, []));
    hide Emitted, Eval, VirtualRun, PhysicalRun, Faithful, IsProgram;
    CallAgrees(g, a, Meaning(g, ops), args, NoStacks(g), CallPath(k), frame, frame, w);
  }

  lemma ArgumentsThere<V>(g: Graph<V>, count: nat, args: nat -> V, frame: int -> V)
    requires ProgramGraph(g, count) && forall i: nat :: i < count ==> frame(i) == args(i)
    ensures forall n :: 0 <= n < |g.nodes| && g.IsParameter(n) ==> frame(g.nodes[n].payload) == args(g.nodes[n].payload)
  {
    hide Layout;
    forall n | 0 <= n < |g.nodes| && g.IsParameter(n) ensures frame(g.nodes[n].payload) == args(g.nodes[n].payload) {
      LayoutFacts(g.nodes, count, n);
    }
  }

  lemma CallIsRun<V>(g: Graph<V>, count: nat, k: nat)
    requires ProgramGraph(g, count) && k == |g.nodes| - 1
    ensures IsRun(g, [], CallPath(k))
  {
    hide Layout;
    LayoutCount(g.nodes, count);
    NoTryNodes(g, count);
    hide Liveness.StartsWith;
    var path := CallPath(k);
    assert path[1..][0] == path[1] && |path[1..]| == 1;
    assert IsRun(g, Next(g, [], path[0]), path[1..]);
  }

  function NoStacks<V>(g: Graph<V>): seq<seq<nat>> {
    seq(|g.blocks|, _ => [])
  }

  lemma NoTryNodes<V>(g: Graph<V>, count: nat)
    requires ProgramGraph(g, count)
    ensures forall b: nat ::
      !Liveness.StartsWith(g, b, TryBegin) && !Liveness.StartsWith(g, b, TryEnd) && !Liveness.StartsWith(g, b, Catch)
  {
    hide Layout;
    LayoutCount(g.nodes, count);
    forall b: nat
      ensures !Liveness.StartsWith(g, b, TryBegin) && !Liveness.StartsWith(g, b, TryEnd)
      ensures !Liveness.StartsWith(g, b, Catch)
    {
      if |g.Instructions(b)| > 0 && g.Instructions(b)[0] < |g.nodes| {
        LayoutFacts(g.nodes, count, g.Instructions(b)[0]);
      }
    }
  }

  /** There are no handlers in a compiled expression. */
  lemma NoHandlers<V>(g: Graph<V>, count: nat, a: Allocation)
    requires ProgramGraph(g, count)
    ensures Structured(g, NoStacks(g)) && Sheltered(g, g.PlainConstants(), a, NoStacks(g))
  {
    NoTryNodes(g, count);
    hide Layout, Liveness.StartsWith;
  }

  // ----- Scheduling the program -----

  /** What the scheduler sees of the builder's nodes. */
  function Items<V>(nodes: seq<Node<V>>, seqPrev: seq<int>, control: seq<int>): (r: seq<Schedule.Item>)
    requires |nodes| == |seqPrev| == |control|
    ensures |r| == |nodes|
  {
    seq(|nodes|, i requires 0 <= i < |nodes| => ItemOf(nodes[i], seqPrev[i], control[i]))
  }

  function ItemOf<V>(node: Node<V>, seqPrev: int, control: int): Schedule.Item {
    Schedule.Item(node.op == Other(START) || node.op == Other(RETURN), false, false, false,
      control, seqPrev, node.inputs)
  }

  /** The items of a straight-line program: a start, nodes that each follow the one before, and a return. */
  ghost predicate Straight(items: seq<Schedule.Item>) {
    && |items| >= 2 && Schedule.Valid(items) && items[0].spine && items[|items| - 1].spine
    && items[0].control == -1 && items[0].seqPrev == -1 && items[0].inputs == []
    && forall n: nat :: 0 < n < |items| ==> Linked(items, n)
  }

  ghost predicate Linked(items: seq<Schedule.Item>, n: nat)
    requires 0 < n < |items|
  {
    && 0 <= items[n].control < n && items[n].seqPrev == n - 1 && (items[n].spine <==> n == |items| - 1)
    && forall m :: m in items[n].inputs ==> 0 <= m < n
  }

  lemma {:induction false} OwnedByStart(items: seq<Schedule.Item>, n: nat)
    requires Straight(items) && PlainItems(items) && 0 < n < |items|
    ensures Schedule.Owner(items, n) == 0
    decreases n
  {
    assert Linked(items, n);
    var c := items[n].control;
    if c > 0 {
      assert Linked(items, c);
      OwnedByStart(items, c);
    }
  }

  /** No joins, Phis or removed nodes. */
  ghost predicate PlainItems(items: seq<Schedule.Item>) {
    forall n :: 0 <= n < |items| ==> !items[n].join && !items[n].phi && !items[n].nop
  }

  /** In the first block every node depends on the one before it and on earlier nodes only. */
  lemma BeforeIs(items: seq<Schedule.Item>, n: nat)
    requires Straight(items) && PlainItems(items) && 0 < n < |items|
    ensures n > 1 ==> n - 1 in Schedule.Before(items, 0, n)
    ensures forall m :: m in Schedule.Before(items, 0, n) ==> 0 < m < n
  {
    hide Schedule.Owner, Schedule.Valid;
    assert Linked(items, n);
    if n > 1 {
      OwnedByStart(items, n - 1);
      assert Linked(items, n - 1);
    }
    forall m | m in Schedule.Before(items, 0, n) ensures 0 < m < n {
      StartUnowned(items, m);
    }
  }

  lemma StartUnowned(items: seq<Schedule.Item>, m: nat)
    requires Straight(items) && Schedule.Precedes(items, 0, m)
    ensures m > 0
  {
    hide Schedule.Owner, Schedule.Valid;
  }

  /** The only order in which each node stands behind the one before it. */
  lemma {:induction false} ChainOrder(items: seq<Schedule.Item>, order: seq<nat>, deps: seq<seq<nat>>, k: nat)
    requires Straight(items) && PlainItems(items) && Schedule.IsDependencies(items, 0, deps)
    requires DepthFirstOrder.Distinct(order) && DepthFirstOrder.Topological(deps, order)
    requires forall x :: x in order ==> 0 < x < |items| - 1
    requires k <= |order|
    ensures forall i :: 0 <= i < k ==> order[i] == i + 1
  {
    hide Straight, Schedule.Before, Schedule.Valid;
    if k > 0 {
      ChainOrder(items, order, deps, k - 1);
      var x := order[k - 1];
      assert x in order;
      assert DepthFirstOrder.DepsBefore(deps, order, k - 1);
      BeforeIs(items, x);
      NotSeenBefore(order, k, x);
      if x > 1 {
        var j :| 0 <= j < |deps[x]| && deps[x][j] == x - 1;
        assert deps[x][j] in order[..k - 1];
      }
    }
  }

  lemma NotSeenBefore(order: seq<nat>, k: nat, x: nat)
    requires DepthFirstOrder.Distinct(order) && 0 < k <= |order| && x == order[k - 1] > 0
    requires forall i :: 0 <= i < k - 1 ==> order[i] == i + 1
    ensures x >= k
  {
    if x - 1 < k - 1 { DistinctAt(order, x - 1, k - 1); }
  }

  lemma DistinctAt(order: seq<nat>, i: nat, j: nat)
    requires DepthFirstOrder.Distinct(order) && i < j < |order|
    ensures order[i] != order[j]
  {
  }

  lemma DepsFall(items: seq<Schedule.Item>, deps: seq<seq<nat>>, m: nat, i: nat)
    requires Straight(items) && PlainItems(items) && Schedule.IsDependencies(items, 0, deps) && m < |deps|
    requires i < |deps[m]|
    ensures deps[m][i] < m
  {
    hide Schedule.Owner, Schedule.Valid;
    StartBefore(items);
    assert m > 0;
    hide Schedule.Before;
    assert deps[m][i] in Schedule.Before(items, 0, m);
    BeforeIs(items, m);
  }

  lemma StartBefore(items: seq<Schedule.Item>)
    requires Straight(items) && PlainItems(items)
    ensures Schedule.Before(items, 0, 0) == []
  {
  }

  lemma DepsRanked(items: seq<Schedule.Item>, deps: seq<seq<nat>>)
    requires Straight(items) && PlainItems(items) && Schedule.IsDependencies(items, 0, deps)
    ensures DepthFirstOrder.Acyclic(deps)
  {
    hide Straight, PlainItems, Schedule.IsDependencies;
    var rank := seq(|deps|, i requires 0 <= i => i);
    forall m: nat, i: nat | m < |deps| && i < |deps[m]| ensures deps[m][i] < m { DepsFall(items, deps, m, i); }
    assert DepthFirstOrder.Ranked(deps, rank);
  }

  lemma SomeDependencies(items: seq<Schedule.Item>, head: nat) returns (deps: seq<seq<nat>>)
    requires Schedule.Valid(items)
    ensures Schedule.IsDependencies(items, head, deps)
  {
    hide Schedule.Before;
    deps := seq(|items|, n requires 0 <= n < |items| => Schedule.Before(items, head, n));
  }

  /** The inner nodes, which are what the first block holds. */
  ghost function Inner(items: seq<Schedule.Item>): set<nat>
  {
    if |items| < 2 then {} else DepthFirstOrder.Items(|items| - 1) - {0}
  }

  lemma InnerEncloses(items: seq<Schedule.Item>)
    requires Straight(items) && PlainItems(items)
    ensures Schedule.Encloses(items, 0, Inner(items))
  {
    hide Schedule.Before, Schedule.Valid, Straight, Schedule.Owner;
    StraightValid(items);
    forall n: nat, m: nat | n in Inner(items) && n < |items| && m in Schedule.Before(items, 0, n)
      ensures m in Inner(items)
    {
      BeforeIs(items, n);
    }
    forall n: nat | Schedule.Belongs(items, 0, n) ensures n in Inner(items) { BelongsInner(items, n); }
  }

  lemma BelongsInner(items: seq<Schedule.Item>, n: nat)
    requires Straight(items) && PlainItems(items)
    ensures Schedule.Belongs(items, 0, n) <==> 0 < n < |items| - 1
  {
    hide Schedule.Owner, Schedule.Valid;
    if 0 < n < |items| {
      assert Linked(items, n);
      OwnedByStart(items, n);
    }
  }

  /** The scheduler's first block is the inner nodes in creation order. */
  method ScheduleBody(items: seq<Schedule.Item>) returns (order: seq<nat>)
    requires Straight(items) && PlainItems(items)
    ensures |order| == |items| - 2 && forall i :: 0 <= i < |order| ==> order[i] == i + 1
  {
    hide Straight, Schedule.Encloses, Schedule.IsDependencies, Schedule.Belongs, DepthFirstOrder.Topological;
    hide DepthFirstOrder.Acyclic;
    StraightValid(items);
    order := Schedule.OrderBlock(items, 0, Inner(items));
    InnerEncloses(items);
    ghost var deps := SomeDependencies(items, 0);
    DepsRanked(items, deps);
    ChainOrder(items, order, deps, |order|);
    forall n: nat | 0 < n < |items| - 1 ensures n in order { BelongsInner(items, n); }
    assert |items| - 2 > 0 ==> |items| - 2 in order;
    SomeMember(order, |order| - 1);
  }

  lemma StraightValid(items: seq<Schedule.Item>)
    requires Straight(items)
    ensures Schedule.Valid(items) && |items| >= 2
  {
  }

  /** Nothing belongs to the block of the return. */
  method ScheduleReturn(items: seq<Schedule.Item>) returns (order: seq<nat>)
    requires Straight(items) && PlainItems(items)
    ensures order == []
  {
    hide Straight, DepthFirstOrder.Topological;
    StraightValid(items);
    order := Schedule.OrderBlock(items, |items| - 1, {});
    NothingBelongs(items);
    SomeMember(order, 0);
  }

  lemma SomeMember(s: seq<nat>, i: int)
    ensures 0 <= i < |s| ==> s[i] in s
  {
  }

  lemma NothingBelongs(items: seq<Schedule.Item>)
    requires Straight(items) && PlainItems(items)
    ensures Schedule.Encloses(items, |items| - 1, {})
  {
    hide Schedule.Valid, Schedule.Owner;
    var last := |items| - 1;
    forall n: nat ensures !Schedule.Belongs(items, last, n) {
      if 0 < n < |items| {
        OwnedByStart(items, n);
      } else if n == 0 {
        assert !Schedule.Data(items[0]);
      }
    }
  }

  lemma {:induction false} StraightHeads(items: seq<Schedule.Item>, k: nat)
    requires Straight(items) && PlainItems(items) && 1 <= k < |items|
    ensures Schedule.HeadsUpTo(items, k) == [0]
  {
    hide Schedule.Valid;
    if k == 1 {
      assert Schedule.HeadsUpTo(items, 0) == [];
    } else {
      StraightHeads(items, k - 1);
      assert Linked(items, k - 1);
    }
  }

  /** Two blocks, with an edge from the first to the second. */
  method ScheduleEdges(items: seq<Schedule.Item>) returns (heads: seq<nat>, succs: seq<seq<nat>>)
    requires Straight(items) && PlainItems(items)
    ensures heads == [0, |items| - 1] && succs == [[1], []]
  {
    hide Straight, Schedule.HeadsUpTo, Schedule.EdgesFrom;
    StraightValid(items);
    heads, succs := Schedule.BuildBlocks(items);
    StraightBlocks(items, heads);
    StraightEdges(items, heads);
    assert succs == [succs[0], succs[1]];
  }

  lemma StraightBlocks(items: seq<Schedule.Item>, heads: seq<nat>)
    requires Straight(items) && PlainItems(items) && heads == Schedule.HeadsUpTo(items, |items|)
    ensures heads == [0, |items| - 1]
  {
    hide Schedule.Valid;
    StraightHeads(items, |items| - 1);
  }

  lemma StraightEdges(items: seq<Schedule.Item>, heads: seq<nat>)
    requires Straight(items) && PlainItems(items) && heads == [0, |items| - 1]
    ensures Schedule.EdgesFrom(items, heads, 0, 2) == [1] && Schedule.EdgesFrom(items, heads, |items| - 1, 2) == []
  {
    hide Schedule.Valid;
    OwnedByStart(items, |items| - 1);
    assert Schedule.Sources(items, 0) == [];
    assert Schedule.Sources(items, |items| - 1) == [0];
    OneOccurrence(0);
    OneOccurrence(|items| - 1);
    forall head: nat ensures Schedule.EdgesFrom(items, heads, head, 1) == [] {
      assert Schedule.EdgesFrom(items, heads, head, 0) == [];
    }
  }

  lemma OneOccurrence(x: int)
    ensures Schedule.Occurrences([], x) == 0 && Schedule.Occurrences([0], x) == if x == 0 then 1 else 0
  {
    assert [0][..0] == [];
  }

  // ----- The compiler -----

  lemma BuiltStraight<V>(nodes: seq<Node<V>>, seqPrev: seq<int>, control: seq<int>, count: nat)
    requires |nodes| == |seqPrev| == |control| && Layout(nodes, count) && seqPrev[0] == -1 && control[0] == -1
    requires forall i :: 0 < i < |nodes| ==> seqPrev[i] == i - 1 && 0 <= control[i] < i
    ensures Straight(Items(nodes, seqPrev, control)) && PlainItems(Items(nodes, seqPrev, control))
  {
    hide Layout;
    var items := Items(nodes, seqPrev, control);
    LayoutCount(nodes, count);
    LayoutEnds(nodes, count);
    forall n: nat | 0 < n < |items| ensures Linked(items, n) {
      LayoutFacts(nodes, count, n);
      LayoutSpine(nodes, count, n);
    }
    forall n: nat | n < |items| ensures Schedule.GoodInputs(items, n) { LayoutFacts(nodes, count, n); }
  }

  lemma LayoutEnds<V>(nodes: seq<Node<V>>, count: nat)
    requires Layout(nodes, count)
    ensures nodes[0].op == Other(START) && nodes[0].inputs == [] && nodes[|nodes| - 1].op == Other(RETURN)
  {
  }

  /** Only the first and the last node are starts and returns. */
  lemma LayoutSpine<V>(nodes: seq<Node<V>>, count: nat, n: nat)
    requires Layout(nodes, count) && 0 < n < |nodes|
    ensures nodes[n].op == Other(START) || nodes[n].op == Other(RETURN) <==> n == |nodes| - 1
  {
    if count < n < |nodes| - 1 { assert Shaped(nodes[n], n); }
  }

  /** Builds, schedules and allocates. */
  method Compile<V, W>(e: Expr<V>, names: seq<nat>, ops: Ops<V, W>) returns (res: Compiled<V>)
    ensures res.Program? <==> Closed(e, ParamMap(names))
    ensures res.Program? ==> IsProgram(e, names, ops, res.graph) && Allocated(res.graph, res.allocation)
  {
    hide Emitted, Closed, Liveness.Guards, Straight, PlainItems, Layout;
    var builder := new SymbolicIRBuilder<V>(ops.zero);
    DeclareAll(builder, names, ops.zero);
    var code := builder.Emit(e, ops);
    EmittedExactly(e, ParamMap(names), |names| + 1, ops);
    if code.UnknownVariable? {
      return UnknownName(code.name);
    }
    builder.Finish(code.result, ops.zero);
    ProgramLayout(e, names, ops);
    assert builder.nodes == ProgramNodes(e, names, ops);
    var items := Items(builder.nodes, builder.seqPrev, builder.control);
    BuiltStraight(builder.nodes, builder.seqPrev, builder.control, |names|);
    var body := ScheduleBody(items);
    var tail := ScheduleReturn(items);
    var heads, succs := ScheduleEdges(items);
    var g := Graph(builder.nodes, {}, [Block([heads[0]] + body, succs[0]), Block([heads[1]] + tail, succs[1])]);
    assert [heads[0]] + body == Upward(ReturnAt(e, names, ops));
    assert [heads[1]] + tail == [ReturnAt(e, names, ops)];
    ProgramIsGraph(e, names, ops, g);
    ProgramValid(g, |names|);
    var a;
    ghost var classes;
    a, classes := Allocate(g);
    return Program(g, a);
  }

  method DeclareAll<V>(builder: SymbolicIRBuilder<V>, names: seq<nat>, filler: V)
    requires builder.Chained() && builder.nodes == [StartNode(filler)] && builder.params == map[]
    modifies builder
    ensures builder.Chained() && builder.nodes == [StartNode(filler)] + ParamNodes(names, filler)
    ensures builder.params == ParamMap(names)
  {
    for i := 0 to |names|
      invariant builder.Chained() && builder.nodes == [StartNode(filler)] + ParamNodes(names[..i], filler)
      invariant builder.params == ParamMap(names[..i])
    {
      assert names[..i + 1][..i] == names[..i];
      builder.DeclareParameter(names[i], i, filler);
      assert ParamNodes(names[..i + 1], filler) ==
        ParamNodes(names[..i], filler) + [ValueNode(Parameter, i + 1, [], i, filler)];
    }
    assert names[..|names|] == names;
  }
}
