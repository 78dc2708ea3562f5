/** The emitted straight-line code computes the expression (src/cas/SymIRCodegen.cpp:33-82). */
module CodegenMeaning {
  import opened AllocatorIR
  import opened SymbolicCodegen

  // ----- Running nodes in creation order -----

  predicate AllGiven<V>(operands: seq<Operand<V>>) {
    forall i :: 0 <= i < |operands| ==> operands[i].Given?
  }

  function Values<V>(operands: seq<Operand<V>>): (r: seq<V>)
    requires AllGiven(operands)
    ensures |r| == |operands|
  {
    seq(|operands|, i requires 0 <= i < |operands| => operands[i].value)
  }

  /** What the machine does for one instruction. */
  function Operate<V, W>(ops: Ops<V, W>, node: Node<V>, operands: seq<Operand<V>>, w: W): (V, W) {
    if !node.op.Other? then (ops.zero, w)
    else if node.op.code == GET_GLOBAL then ops.global(node.payload, w)
    else if node.op.code == CALL && |operands| > 0 && AllGiven(operands)
    then ops.call(operands[0].value, Values(operands[1..]), w)
    else if node.op.code <= POW && |operands| == 2 && AllGiven(operands)
    then ops.binary(node.op.code, operands[0].value, operands[1].value, w)
    else (ops.zero, w)
  }

  function Meaning<V, W>(g: Graph<V>, ops: Ops<V, W>): Semantics<V, W> {
    (n: nat, operands: seq<Operand<V>>, w: W) => if n < |g.nodes| then
      Operate(ops, g.nodes[n], operands, w) else (ops.zero, w)
  }

  /** Every node has the register of its position, or none. */
  ghost predicate Numbered<V>(g: Graph<V>) {
    forall i :: 0 <= i < |g.nodes| ==> g.nodes[i].vreg == i - 1 || g.nodes[i].vreg == NO_REG
  }

  ghost predicate ConstsMatch<V>(g: Graph<V>, consts: set<int>) {
    forall i :: 0 <= i < |g.nodes| && g.nodes[i].vreg != NO_REG ==>
      (g.nodes[i].vreg in consts <==> g.nodes[i].op.Constant?)
  }

  /** The operand that a use of node `i` sees. */
  function Seen<V>(g: Graph<V>, consts: set<int>, regs: int -> V, i: nat): Operand<V> {
    OperandOf(g, consts, r => r, regs, i)
  }

  ghost function Exec<V, W>(g: Graph<V>, consts: set<int>, ops: Ops<V, W>, args: nat -> V, from: nat, stop: nat,
                            m: Machine<V, W>): Machine<V, W>
    decreases stop - from
  {
    if from >= stop then m else
      Exec(g, consts, ops, args, from + 1, stop, VirtualStep(g, consts, Meaning(g, ops), args, from, m))
  }

  lemma {:induction false} ExecSplit<V, W>(g: Graph<V>, consts: set<int>, ops: Ops<V, W>, args: nat -> V, from: nat,
                                           mid: nat, stop: nat, m: Machine<V, W>)
    requires from <= mid <= stop
    ensures Exec(g, consts, ops, args, from, stop, m) ==
      Exec(g, consts, ops, args, mid, stop, Exec(g, consts, ops, args, from, mid, m))
    decreases mid - from
  {
    hide VirtualStep;
    if from < mid {
      ExecSplit(g, consts, ops, args, from + 1, mid, stop, VirtualStep(g, consts, Meaning(g, ops), args, from, m));
    }
  }

  /** One step shows its result and leaves what earlier nodes show. */
  lemma StepShows<V, W>(g: Graph<V>, consts: set<int>, ops: Ops<V, W>, args: nat -> V, n: nat, m: Machine<V, W>)
    requires Numbered(g) && ConstsMatch(g, consts) && n < |g.nodes|
    ensures var m' := VirtualStep(g, consts, Meaning(g, ops), args, n, m);
      forall j: nat :: j < n ==> Seen(g, consts, m'.regs, j) == Seen(g, consts, m.regs, j)
    ensures var m' := VirtualStep(g, consts, Meaning(g, ops), args, n, m);
      var operands := seq(|g.nodes[n].inputs|,
        i requires 0 <= i < |g.nodes[n].inputs| => Seen(g, consts, m.regs, g.nodes[n].inputs[i]));
      match g.nodes[n].op
      case Constant => m'.world == m.world &&
        (g.nodes[n].vreg != NO_REG ==> Seen(g, consts, m'.regs, n) == Given(g.nodes[n].value))
      case Parameter => m'.world == m.world &&
        (g.nodes[n].vreg != NO_REG ==> Seen(g, consts, m'.regs, n) == Given(args(g.nodes[n].payload)))
      case Other(_) => m'.world == Operate(ops, g.nodes[n], operands, m.world).1
        && (g.nodes[n].vreg != NO_REG ==>
             Seen(g, consts, m'.regs, n) == Given(Operate(ops, g.nodes[n], operands, m.world).0))
      case _ => true
  {
    var operands := seq(|g.nodes[n].inputs|,
      i requires 0 <= i < |g.nodes[n].inputs| => Seen(g, consts, m.regs, g.nodes[n].inputs[i]));
    assert Operands(g, consts, r => r, m.regs, n) == operands;
  }

  lemma {:induction false} ExecKeeps<V, W>(g: Graph<V>, consts: set<int>, ops: Ops<V, W>, args: nat -> V, from: nat,
                                           stop: nat, m: Machine<V, W>, j: nat)
    requires Numbered(g) && ConstsMatch(g, consts) && from <= stop <= |g.nodes| && j < from
    ensures Seen(g, consts, Exec(g, consts, ops, args, from, stop, m).regs, j) == Seen(g, consts, m.regs, j)
    decreases stop - from
  {
    hide VirtualStep, Seen;
    if from < stop {
      StepShows(g, consts, ops, args, from, m);
      ExecKeeps(g, consts, ops, args, from + 1, stop, VirtualStep(g, consts, Meaning(g, ops), args, from, m), j);
    }
  }

  lemma ExecNone<V, W>(g: Graph<V>, consts: set<int>, ops: Ops<V, W>, args: nat -> V, n: nat, m: Machine<V, W>)
    ensures Exec(g, consts, ops, args, n, n, m) == m
  {
  }

  lemma ExecOne<V, W>(g: Graph<V>, consts: set<int>, ops: Ops<V, W>, args: nat -> V, n: nat, m: Machine<V, W>)
    ensures Exec(g, consts, ops, args, n, n + 1, m) == VirtualStep(g, consts, Meaning(g, ops), args, n, m)
  {
    hide VirtualStep;
  }

  // ----- One instruction of each kind -----

  lemma ConstantShows<V, W>(g: Graph<V>, consts: set<int>, ops: Ops<V, W>, args: nat -> V, n: nat, m: Machine<V, W>,
                            v: V)
    requires Numbered(g) && ConstsMatch(g, consts) && 0 < n < |g.nodes| && g.nodes[n] == ConstantNode(n, v)
    ensures var m' := Exec(g, consts, ops, args, n, n + 1, m);
      m'.world == m.world && Seen(g, consts, m'.regs, n) == Given(v)
  {
    hide VirtualStep, Seen, Exec;
    ExecOne(g, consts, ops, args, n, m);
    StepShows(g, consts, ops, args, n, m);
  }

  lemma BinaryShows<V, W>(g: Graph<V>, consts: set<int>, ops: Ops<V, W>, args: nat -> V, n: nat, m: Machine<V, W>,
                          op: nat, l: nat, r: nat, x: V, y: V)
    requires Numbered(g) && ConstsMatch(g, consts) && 0 < n < |g.nodes|
    requires g.nodes[n] == BinaryNode(op, n, l, r, ops.zero) && op <= POW
    requires Seen(g, consts, m.regs, l) == Given(x) && Seen(g, consts, m.regs, r) == Given(y)
    ensures var m' := Exec(g, consts, ops, args, n, n + 1, m);
      m'.world == ops.binary(op, x, y, m.world).1 &&
        Seen(g, consts, m'.regs, n) == Given(ops.binary(op, x, y, m.world).0)
  {
    hide VirtualStep, Seen, Exec;
    ExecOne(g, consts, ops, args, n, m);
    StepShows(g, consts, ops, args, n, m);
    var node := g.nodes[n];
    var operands := seq(|node.inputs|, i requires 0 <= i < |node.inputs| => Seen(g, consts, m.regs, node.inputs[i]));
    assert operands == [Given(x), Given(y)];
  }

  lemma GlobalShows<V, W>(g: Graph<V>, consts: set<int>, ops: Ops<V, W>, args: nat -> V, n: nat, m: Machine<V, W>,
                          name: nat)
    requires Numbered(g) && ConstsMatch(g, consts) && 0 < n < |g.nodes|
    requires g.nodes[n] == ValueNode(Other(GET_GLOBAL), n, [], name, ops.zero)
    ensures var m' := Exec(g, consts, ops, args, n, n + 1, m);
      m'.world == ops.global(name, m.world).1 && Seen(g, consts, m'.regs, n) == Given(ops.global(name, m.world).0)
  {
    hide VirtualStep, Seen, Exec;
    ExecOne(g, consts, ops, args, n, m);
    StepShows(g, consts, ops, args, n, m);
  }

  /** The nodes show the values. */
  ghost predicate ShowAll<V>(g: Graph<V>, consts: set<int>, regs: int -> V, nodes: seq<nat>, values: seq<V>) {
    |nodes| == |values| && forall i :: 0 <= i < |nodes| ==> Seen(g, consts, regs, nodes[i]) == Given(values[i])
  }

  lemma CallShows<V, W>(g: Graph<V>, consts: set<int>, ops: Ops<V, W>, args: nat -> V, n: nat, m: Machine<V, W>, f: nat,
                        results: seq<nat>, fv: V, vs: seq<V>)
    requires Numbered(g) && ConstsMatch(g, consts) && 0 < n < |g.nodes|
    requires g.nodes[n] == ValueNode(Other(CALL), n, [f] + results, |results|, ops.zero)
    requires Seen(g, consts, m.regs, f) == Given(fv) && ShowAll(g, consts, m.regs, results, vs)
    ensures var m' := Exec(g, consts, ops, args, n, n + 1, m);
      m'.world == ops.call(fv, vs, m.world).1 && Seen(g, consts, m'.regs, n) == Given(ops.call(fv, vs, m.world).0)
  {
    hide VirtualStep, Seen, Exec;
    ExecOne(g, consts, ops, args, n, m);
    StepShows(g, consts, ops, args, n, m);
    var node := g.nodes[n];
    var operands := seq(|node.inputs|, i requires 0 <= i < |node.inputs| => Seen(g, consts, m.regs, node.inputs[i]));
    assert operands[0] == Given(fv);
    forall i | 0 <= i < |results| ensures operands[1..][i] == Given(vs[i]) { assert node.inputs[i + 1] == results[i]; }
    assert AllGiven(operands) by {
      forall i | 0 <= i < |operands| ensures operands[i].Given?
      {
        if i > 0 { assert operands[1..][i - 1] == operands[i]; }
      }
    }
    assert Values(operands[1..]) == vs;
  }

  // ----- Expressions -----

  /** The graph holds `nodes` from position `n` on. */
  ghost predicate Holds<V>(g: Graph<V>, n: nat, nodes: seq<Node<V>>) {
    n + |nodes| <= |g.nodes| && forall k :: 0 <= k < |nodes| ==> g.nodes[n + k] == nodes[k]
  }

  lemma HoldsParts<V>(g: Graph<V>, n: nat, a: seq<Node<V>>, b: seq<Node<V>>)
    requires Holds(g, n, a + b)
    ensures Holds(g, n, a) && Holds(g, n + |a|, b)
  {
    forall k | 0 <= k < |a| ensures g.nodes[n + k] == a[k] { assert (a + b)[k] == a[k]; }
    forall k | 0 <= k < |b| ensures g.nodes[n + |a| + k] == b[k] {
      assert (a + b)[|a| + k] == b[k];
      assert g.nodes[n + (|a| + k)] == (a + b)[|a| + k];
    }
  }

  /** Below position `n`, the parameters show the values of the variables. */
  ghost predicate ParamsShow<V>(g: Graph<V>, consts: set<int>, regs: int -> V, params: map<nat, nat>, env: nat -> V,
                                n: nat) {
    forall x :: x in params ==> params[x] < n && Seen(g, consts, regs, params[x]) == Given(env(x))
  }

  lemma ParamsStay<V, W>(g: Graph<V>, consts: set<int>, ops: Ops<V, W>, args: nat -> V, from: nat, stop: nat,
                         m: Machine<V, W>, params: map<nat, nat>, env: nat -> V)
    requires Numbered(g) && ConstsMatch(g, consts) && from <= stop <= |g.nodes|
    requires ParamsShow(g, consts, m.regs, params, env, from)
    ensures ParamsShow(g, consts, Exec(g, consts, ops, args, from, stop, m).regs, params, env, stop)
  {
    hide Seen, Exec;
    forall x | x in params
      ensures Seen(g, consts, Exec(g, consts, ops, args, from, stop, m).regs, params[x]) == Given(env(x))
    {
      ExecKeeps(g, consts, ops, args, from, stop, m, params[x]);
    }
  }

  /** After the nodes from `n` to `stop`, node `r` shows the value and the world is as after evaluation. */
  ghost predicate Computed<V, W>(g: Graph<V>, consts: set<int>, ops: Ops<V, W>, args: nat -> V, n: nat, stop: nat,
                                 m: Machine<V, W>, r: nat, result: (V, W)) {
    r < stop && Exec(g, consts, ops, args, n, stop, m).world == result.1
    && Seen(g, consts, Exec(g, consts, ops, args, n, stop, m).regs, r) == Given(result.0)
  }

  ghost predicate Ready<V, W>(g: Graph<V>, consts: set<int>, m: Machine<V, W>, params: map<nat, nat>, env: nat -> V,
                              n: nat) {
    n > 0 && Numbered(g) && ConstsMatch(g, consts) && ParamsShow(g, consts, m.regs, params, env, n)
  }

  lemma ReadyLater<V, W>(g: Graph<V>, consts: set<int>, ops: Ops<V, W>, args: nat -> V, from: nat, stop: nat,
                         m: Machine<V, W>, params: map<nat, nat>, env: nat -> V)
    requires Ready(g, consts, m, params, env, from) && from <= stop <= |g.nodes|
    ensures Ready(g, consts, Exec(g, consts, ops, args, from, stop, m), params, env, stop)
  {
    hide Exec, Seen;
    ParamsStay(g, consts, ops, args, from, stop, m, params, env);
  }

  lemma {:induction false} EmitMeans<V, W>(e: Expr<V>, params: map<nat, nat>, n: nat, ops: Ops<V, W>, g: Graph<V>,
                                           consts: set<int>, args: nat -> V, env: nat -> V, m: Machine<V, W>)
    requires Ready(g, consts, m, params, env, n)
    requires Emitted(e, params, n, ops).Code? && Holds(g, n, Emitted(e, params, n, ops).nodes)
    ensures var code := Emitted(e, params, n, ops);
      Computed(g, consts, ops, args, n, n + |code.nodes|, m, code.result, Eval(e, env, ops, m.world))
    decreases e, 2
  {
    Unfolds(e, params, n, ops, env, m.world);
    hide Exec, Seen, Ready, Holds, Emitted, EmittedAll, Eval, EvalAll, Computed;
    match e
    case Number(v) => NeutralMeans(v, params, n, ops, g, consts, args, env, m);
    case Variable(x) => VariableMeans(x, params, n, ops, g, consts, args, env, m);
    case Add(list) => AllMeans(ADD, list, ops.zero, params, n, ops, g, consts, args, env, m);
    case Mul(list) => AllMeans(MUL, list, ops.one, params, n, ops, g, consts, args, env, m);
    case Pow(b, x) => PowAllMeans(b, x, params, n, ops, g, consts, args, env, m);
    case Func(name, list) => FuncMeans(name, list, params, n, ops, g, consts, args, env, m);
  }

  lemma {:induction false} PowAllMeans<V, W>(b: Expr<V>, x: Expr<V>, params: map<nat, nat>, n: nat, ops: Ops<V, W>,
                                             g: Graph<V>, consts: set<int>,
                                             args: nat -> V, env: nat -> V, m: Machine<V, W>)
    requires Ready(g, consts, m, params, env, n)
    requires Emitted(Pow(b, x), params, n, ops).Code? && Holds(g, n, Emitted(Pow(b, x), params, n, ops).nodes)
    ensures var code := Emitted(Pow(b, x), params, n, ops);
      Computed(g, consts, ops, args, n, n + |code.nodes|, m, code.result, Eval(Pow(b, x), env, ops, m.world))
    decreases Pow(b, x), 1
  {
    PowUnfolds(b, x, params, n, ops);
    hide Exec, Seen, Ready, Holds, Emitted, Eval, PowNode, Computed;
    var first := Emitted(if ops.exponentFirst then x else b, params, n, ops);
    var k1 := n + |first.nodes|;
    var second := Emitted(if ops.exponentFirst then b else x, params, k1, ops);
    var k2 := k1 + |second.nodes|;
    var node := PowNode(k2, first.result, second.result, ops);
    HoldsParts(g, n, first.nodes + second.nodes, [node]);
    HoldsParts(g, n, first.nodes, second.nodes);
    EmitMeans(if ops.exponentFirst then x else b, params, n, ops, g, consts, args, env, m);
    var m1 := Exec(g, consts, ops, args, n, k1, m);
    HoldsBound(g, k1, second.nodes);
    ReadyLater(g, consts, ops, args, n, k1, m, params, env);
    EmitMeans(if ops.exponentFirst then b else x, params, k1, ops, g, consts, args, env, m1);
    PowMeans(b, x, n, k1, k2, first.result, second.result, ops, g, consts, args, env, m, params);
  }

  lemma Unfolds<V, W>(e: Expr<V>, params: map<nat, nat>, n: nat, ops: Ops<V, W>, env: nat -> V, w: W)
    ensures e.Number? ==>
      Emitted(e, params, n, ops) == Code([ConstantNode(n, e.value)], n) && Eval(e, env, ops, w) == (e.value, w)
    ensures e.Variable? ==> Eval(e, env, ops, w) == (env(e.name), w)
    ensures e.Variable? ==>
      Emitted(e, params, n, ops) == if e.name in params then Code([], params[e.name]) else UnknownVariable(e.name)
    ensures e.Add? ==> Emitted(e, params, n, ops) == EmittedAll(ADD, e.args, ops.zero, params, n, ops)
    ensures e.Add? ==> Eval(e, env, ops, w) == EvalAll(ADD, e.args, ops.zero, env, ops, w)
    ensures e.Mul? ==> Emitted(e, params, n, ops) == EmittedAll(MUL, e.args, ops.one, params, n, ops)
    ensures e.Mul? ==> Eval(e, env, ops, w) == EvalAll(MUL, e.args, ops.one, env, ops, w)
  {
  }

  lemma HoldsBound<V>(g: Graph<V>, n: nat, nodes: seq<Node<V>>)
    requires Holds(g, n, nodes)
    ensures n + |nodes| <= |g.nodes| && (|nodes| == 1 ==> g.nodes[n] == nodes[0])
  {
    if |nodes| == 1 { assert g.nodes[n + 0] == nodes[0]; }
  }

  lemma ReadyFacts<V, W>(g: Graph<V>, consts: set<int>, m: Machine<V, W>, params: map<nat, nat>, env: nat -> V, n: nat)
    requires Ready(g, consts, m, params, env, n)
    ensures n > 0 && Numbered(g) && ConstsMatch(g, consts)
  {
  }

  lemma NeutralMeans<V, W>(v: V, params: map<nat, nat>, n: nat, ops: Ops<V, W>, g: Graph<V>, consts: set<int>,
                           args: nat -> V, env: nat -> V, m: Machine<V, W>)
    requires Ready(g, consts, m, params, env, n) && Holds(g, n, [ConstantNode(n, v)])
    ensures Computed(g, consts, ops, args, n, n + 1, m, n, (v, m.world))
  {
    hide Exec, Seen;
    HoldsBound(g, n, [ConstantNode(n, v)]);
    ConstantShows(g, consts, ops, args, n, m, v);
  }

  lemma VariableMeans<V, W>(x: nat, params: map<nat, nat>, n: nat, ops: Ops<V, W>, g: Graph<V>, consts: set<int>,
                            args: nat -> V, env: nat -> V, m: Machine<V, W>)
    requires Ready(g, consts, m, params, env, n) && x in params
    ensures Computed(g, consts, ops, args, n, n, m, params[x], (env(x), m.world))
  {
    hide Seen;
    assert Exec(g, consts, ops, args, n, n, m) == m;
  }

  /** The last step of a power, with the two results in the order of their evaluation. */
  lemma PowMeans<V, W>(b: Expr<V>, x: Expr<V>, n: nat, k1: nat, k2: nat, r: nat, s: nat, ops: Ops<V, W>, g: Graph<V>,
                       consts: set<int>, args: nat -> V, env: nat -> V, m: Machine<V, W>, params: map<nat, nat>)
    requires Ready(g, consts, m, params, env, n) && n <= k1 <= k2 && Holds(g, k2, [PowNode(k2, r, s, ops)])
    requires Computed(g, consts, ops, args, n, k1, m, r, Eval(if ops.exponentFirst then x else b, env, ops, m.world))
    requires var m1 := Exec(g, consts, ops, args, n, k1, m);
      Computed(g, consts, ops, args, k1, k2, m1, s, Eval(if ops.exponentFirst then b else x, env, ops, m1.world))
    ensures Computed(g, consts, ops, args, n, k2 + 1, m, k2, Eval(Pow(b, x), env, ops, m.world))
  {
    hide Exec, Seen, ParamsShow;
    HoldsBound(g, k2, [PowNode(k2, r, s, ops)]);
    var m1 := Exec(g, consts, ops, args, n, k1, m);
    var m2 := Exec(g, consts, ops, args, k1, k2, m1);
    ExecSplit(g, consts, ops, args, n, k1, k2, m);
    ExecSplit(g, consts, ops, args, n, k2, k2 + 1, m);
    ExecKeeps(g, consts, ops, args, k1, k2, m1, r);
    var first := Eval(if ops.exponentFirst then x else b, env, ops, m.world).0;
    var second := Eval(if ops.exponentFirst then b else x, env, ops, m1.world).0;
    if ops.exponentFirst {
      BinaryShows(g, consts, ops, args, k2, m2, POW, s, r, second, first);
    } else {
      BinaryShows(g, consts, ops, args, k2, m2, POW, r, s, first, second);
    }
  }

  lemma {:induction false} AllMeans<V, W>(op: nat, list: Exprs<V>, neutral: V, params: map<nat, nat>, n: nat,
                                          ops: Ops<V, W>, g: Graph<V>, consts: set<int>,
                                          args: nat -> V, env: nat -> V, m: Machine<V, W>)
    requires Ready(g, consts, m, params, env, n) && op <= POW
    requires EmittedAll(op, list, neutral, params, n, ops).Code?
    requires Holds(g, n, EmittedAll(op, list, neutral, params, n, ops).nodes)
    ensures var code := EmittedAll(op, list, neutral, params, n, ops);
      Computed(g, consts, ops, args, n, n + |code.nodes|, m, code.result, EvalAll(op, list, neutral, env, ops, m.world))
    decreases list, 1
  {
    hide Exec, Seen, Ready, Holds;
    match list
    case Nil => NeutralMeans(neutral, params, n, ops, g, consts, args, env, m);
    case Cons(first, rest) =>
      var code := Emitted(first, params, n, ops);
      var k := n + |code.nodes|;
      var more := EmittedRest(op, rest, code.result, params, k, ops);
      HoldsParts(g, n, code.nodes, more.nodes);
      EmitMeans(first, params, n, ops, g, consts, args, env, m);
      var m1 := Exec(g, consts, ops, args, n, k, m);
      HoldsBound(g, k, more.nodes);
      ReadyLater(g, consts, ops, args, n, k, m, params, env);
      RestMeans(op, rest, code.result, Eval(first, env, ops, m.world).0, params, k, ops, g, consts, args, env, m1);
      ExecSplit(g, consts, ops, args, n, k, k + |more.nodes|, m);
  }

  lemma {:induction false} RestMeans<V, W>(op: nat, list: Exprs<V>, acc: nat, v: V, params: map<nat, nat>, n: nat,
                                           ops: Ops<V, W>, g: Graph<V>, consts: set<int>,
                                           args: nat -> V, env: nat -> V, m: Machine<V, W>)
    requires Ready(g, consts, m, params, env, n) && op <= POW && acc < n && Seen(g, consts, m.regs, acc) == Given(v)
    requires EmittedRest(op, list, acc, params, n, ops).Code?
    requires Holds(g, n, EmittedRest(op, list, acc, params, n, ops).nodes)
    ensures var code := EmittedRest(op, list, acc, params, n, ops);
      Computed(g, consts, ops, args, n, n + |code.nodes|, m, code.result, EvalRest(op, list, v, env, ops, m.world))
    decreases list, 0
  {
    hide Exec, Seen, Ready, Holds;
    match list
    case Nil => ExecNone(g, consts, ops, args, n, m);
    case Cons(next, rest) =>
      var code := Emitted(next, params, n, ops);
      var k := n + |code.nodes|;
      var node := BinaryNode(op, k, acc, code.result, ops.zero);
      var more := EmittedRest(op, rest, k, params, k + 1, ops);
      HoldsParts(g, n, code.nodes + [node], more.nodes);
      HoldsParts(g, n, code.nodes, [node]);
      EmitMeans(next, params, n, ops, g, consts, args, env, m);
      ReadyFacts(g, consts, m, params, env, n);
      HoldsBound(g, k, [node]);
      HoldsBound(g, k + 1, more.nodes);
      var m1 := Exec(g, consts, ops, args, n, k, m);
      ExecKeeps(g, consts, ops, args, n, k, m, acc);
      var y := Eval(next, env, ops, m.world).0;
      BinaryShows(g, consts, ops, args, k, m1, op, acc, code.result, v, y);
      ExecSplit(g, consts, ops, args, n, k, k + 1, m);
      ReadyLater(g, consts, ops, args, n, k + 1, m, params, env);
      var m2 := Exec(g, consts, ops, args, n, k + 1, m);
      RestMeans(op, rest, k, ops.binary(op, v, y, m1.world).0, params, k + 1, ops, g, consts, args, env, m2);
      ExecSplit(g, consts, ops, args, n, k + 1, k + 1 + |more.nodes|, m);
  }

  /** After the nodes from `n` to `stop`, the argument nodes show the argument values. */
  ghost predicate ComputedArgs<V, W>(g: Graph<V>, consts: set<int>, ops: Ops<V, W>, args: nat -> V, n: nat, stop: nat,
                                     m: Machine<V, W>, results: seq<nat>, values: (seq<V>, W)) {
    (forall i :: 0 <= i < |results| ==> results[i] < stop) && Exec(g, consts, ops, args, n, stop, m).world == values.1
    && ShowAll(g, consts, Exec(g, consts, ops, args, n, stop, m).regs, results, values.0)
  }

  lemma {:induction false} ArgsMean<V, W>(list: Exprs<V>, params: map<nat, nat>, n: nat, ops: Ops<V, W>, g: Graph<V>,
                                          consts: set<int>, args: nat -> V, env: nat -> V, m: Machine<V, W>)
    requires Ready(g, consts, m, params, env, n)
    requires EmittedArgs(list, params, n, ops).ArgCode? && Holds(g, n, EmittedArgs(list, params, n, ops).nodes)
    ensures var code := EmittedArgs(list, params, n, ops);
      ComputedArgs(g, consts, ops, args, n, n + |code.nodes|, m, code.results, EvalArgs(list, env, ops, m.world))
    decreases list, 0
  {
    hide Exec, Seen, Ready, Holds, ShowAll;
    match list
    case Nil =>
      ExecNone(g, consts, ops, args, n, m);
      ShowNone(g, consts, m.regs);
    case Cons(first, rest) =>
      var code := Emitted(first, params, n, ops);
      var k := n + |code.nodes|;
      var more := EmittedArgs(rest, params, k, ops);
      HoldsParts(g, n, code.nodes, more.nodes);
      EmitMeans(first, params, n, ops, g, consts, args, env, m);
      ReadyFacts(g, consts, m, params, env, n);
      var m1 := Exec(g, consts, ops, args, n, k, m);
      HoldsBound(g, k, more.nodes);
      ReadyLater(g, consts, ops, args, n, k, m, params, env);
      ArgsMean(rest, params, k, ops, g, consts, args, env, m1);
      ExecSplit(g, consts, ops, args, n, k, k + |more.nodes|, m);
      ExecKeeps(g, consts, ops, args, k, k + |more.nodes|, m1, code.result);
      ShowMore(g, consts, Exec(g, consts, ops, args, n, k + |more.nodes|, m).regs, code.result, more.results,
        Eval(first, env, ops, m.world).0, EvalArgs(rest, env, ops, m1.world).0);
  }

  lemma ShowNone<V>(g: Graph<V>, consts: set<int>, regs: int -> V)
    ensures ShowAll(g, consts, regs, [], [])
  {
  }

  lemma ShowMore<V>(g: Graph<V>, consts: set<int>, regs: int -> V, r: nat, rest: seq<nat>, v: V, vs: seq<V>)
    requires Seen(g, consts, regs, r) == Given(v) && ShowAll(g, consts, regs, rest, vs)
    ensures ShowAll(g, consts, regs, [r] + rest, [v] + vs)
  {
    hide Seen;
  }

  lemma {:induction false} FuncMeans<V, W>(name: nat, list: Exprs<V>, params: map<nat, nat>, n: nat, ops: Ops<V, W>,
                                           g: Graph<V>, consts: set<int>,
                                           args: nat -> V, env: nat -> V, m: Machine<V, W>)
    requires Ready(g, consts, m, params, env, n)
    requires Emitted(Func(name, list), params, n, ops).Code?
    requires Holds(g, n, Emitted(Func(name, list), params, n, ops).nodes)
    ensures var code := Emitted(Func(name, list), params, n, ops);
      Computed(g, consts, ops, args, n, n + |code.nodes|, m, code.result, Eval(Func(name, list), env, ops, m.world))
    decreases list, 2
  {
    hide Exec, Seen, Ready, Holds;
    var argCode := EmittedArgs(list, params, n + 1, ops);
    var at := n + 1 + |argCode.nodes|;
    var globalNode := ValueNode(Other(GET_GLOBAL), n, [], name, ops.zero);
    var callNode := ValueNode(Other(CALL), at, [n] + argCode.results, |argCode.results|, ops.zero);
    HoldsParts(g, n, [globalNode] + argCode.nodes, [callNode]);
    HoldsParts(g, n, [globalNode], argCode.nodes);
    HoldsBound(g, n, [globalNode]);
    HoldsBound(g, at, [callNode]);
    ReadyFacts(g, consts, m, params, env, n);
    GlobalShows(g, consts, ops, args, n, m, name);
    var m1 := Exec(g, consts, ops, args, n, n + 1, m);
    ReadyLater(g, consts, ops, args, n, n + 1, m, params, env);
    ArgsMean(list, params, n + 1, ops, g, consts, args, env, m1);
    var m2 := Exec(g, consts, ops, args, n + 1, at, m1);
    ExecKeeps(g, consts, ops, args, n + 1, at, m1, n);
    CallShows(g, consts, ops, args, at, m2, n, argCode.results, ops.global(name, m.world).0,
      EvalArgs(list, env, ops, m1.world).0);
    ExecSplit(g, consts, ops, args, n, n + 1, at, m);
    ExecSplit(g, consts, ops, args, n, at, at + 1, m);
  }
}
