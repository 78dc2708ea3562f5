/** From a symbolic expression to straight-line IR (src/cas/SymIRCodegen.cpp:16-138). */
module SymbolicCodegen {
  import opened AllocatorIR

  const ADD := 0
  const MUL := 1
  const POW := 2
  const GET_GLOBAL := 3
  const CALL := 4
  const START := 5
  const RETURN := 6

  /** Names are interned as numbers; `Number` also stands for the named constants. */
  datatype Expr<V> = Number(value: V) | Variable(name: nat) | Add(args: Exprs<V>) | Mul(args: Exprs<V>)
    | Pow(base: Expr<V>, exponent: Expr<V>) | Func(name: nat, args: Exprs<V>)

  datatype Exprs<V> = Nil | Cons(head: Expr<V>, tail: Exprs<V>)

  /** The run-time operators, each of which may change the world. `exponentFirst` is the order in which the compiler
      that built the code generator evaluates the two arguments of a call. */
  datatype Ops<!V, !W> = Ops(binary: (nat, V, V, W) -> (V, W), global: (nat, W) -> (V, W),
                             call: (V, seq<V>, W) -> (V, W),
                             zero: V, one: V, exponentFirst: bool)

  // ----- The meaning of an expression -----

  function Eval<V, W>(e: Expr<V>, env: nat -> V, ops: Ops<V, W>, w: W): (V, W)
    decreases e, 0
  {
    match e
    case Number(v) => (v, w)
    case Variable(x) => (env(x), w)
    case Add(args) => EvalAll(ADD, args, ops.zero, env, ops, w)
    case Mul(args) => EvalAll(MUL, args, ops.one, env, ops, w)
    case Pow(b, x) =>
      if ops.exponentFirst then
        var (xv, w1) := Eval(x, env, ops, w);
        var (bv, w2) := Eval(b, env, ops, w1);
        ops.binary(POW, bv, xv, w2)
      else
        var (bv, w1) := Eval(b, env, ops, w);
        var (xv, w2) := Eval(x, env, ops, w1);
        ops.binary(POW, bv, xv, w2)
    case Func(name, args) =>
      var (f, w1) := ops.global(name, w);
      var (vs, w2) := EvalArgs(args, env, ops, w1);
      ops.call(f, vs, w2)
  }

  /** A sum or product from the left; an empty one is its neutral element. */
  function EvalAll<V, W>(op: nat, args: Exprs<V>, neutral: V, env: nat -> V, ops: Ops<V, W>, w: W): (V, W)
    decreases args, 1
  {
    match args
    case Nil => (neutral, w)
    case Cons(first, rest) =>
      var (v, w1) := Eval(first, env, ops, w);
      EvalRest(op, rest, v, env, ops, w1)
  }

  function EvalRest<V, W>(op: nat, args: Exprs<V>, acc: V, env: nat -> V, ops: Ops<V, W>, w: W): (V, W)
    decreases args, 0
  {
    match args
    case Nil => (acc, w)
    case Cons(next, rest) =>
      var (v, w1) := Eval(next, env, ops, w);
      var (sum, w2) := ops.binary(op, acc, v, w1);
      EvalRest(op, rest, sum, env, ops, w2)
  }

  function EvalArgs<V, W>(args: Exprs<V>, env: nat -> V, ops: Ops<V, W>, w: W): (seq<V>, W)
    decreases args, 0
  {
    match args
    case Nil => ([], w)
    case Cons(first, rest) =>
      var (v, w1) := Eval(first, env, ops, w);
      var (vs, w2) := EvalArgs(rest, env, ops, w1);
      ([v] + vs, w2)
  }

  // ----- The nodes that are emitted -----

  /** Nodes to append, and the node that holds the result. */
  datatype Code<V> = UnknownVariable(name: nat) | Code(nodes: seq<Node<V>>, result: nat)

  datatype ArgCode<V> = UnknownArg(name: nat) | ArgCode(nodes: seq<Node<V>>, results: seq<nat>)

  /** Every node after the start has the next virtual register. */
  function ValueNode<V>(op: Op, n: nat, inputs: seq<nat>, payload: nat, value: V): Node<V> {
    Node(op, n - 1, inputs, payload, value)
  }

  function ConstantNode<V>(n: nat, value: V): Node<V> {
    ValueNode(Constant, n, [], 0, value)
  }

  function BinaryNode<V>(op: nat, n: nat, left: nat, right: nat, filler: V): Node<V> {
    ValueNode(Other(op), n, [left, right], 0, filler)
  }

  /** The power of the two results, given in the order in which they were computed. */
  function PowNode<V, W>(n: nat, first: nat, second: nat, ops: Ops<V, W>): Node<V> {
    BinaryNode(POW, n, if ops.exponentFirst then second else first,
      if ops.exponentFirst then first else second, ops.zero)
  }

  /** What `emit` appends when `n` nodes exist. */
  function Emitted<V, W>(e: Expr<V>, params: map<nat, nat>, n: nat, ops: Ops<V, W>): Code<V>
    decreases e, 0
  {
    match e
    case Number(v) => Code([ConstantNode(n, v)], n)
    case Variable(x) => if x in params then Code([], params[x]) else UnknownVariable(x)
    case Add(args) => EmittedAll(ADD, args, ops.zero, params, n, ops)
    case Mul(args) => EmittedAll(MUL, args, ops.one, params, n, ops)
    case Pow(b, x) =>
      match Emitted(if ops.exponentFirst then x else b, params, n, ops) {
        case UnknownVariable(name) => UnknownVariable(name)
        case Code(first, r) =>
          match Emitted(if ops.exponentFirst then b else x, params, n + |first|, ops) {
            case UnknownVariable(name) => UnknownVariable(name)
            case Code(second, s) =>
              var at := n + |first| + |second|;
              Code(first + second + [PowNode(at, r, s, ops)], at)
          }
      }
    case Func(name, args) =>
      match EmittedArgs(args, params, n + 1, ops) {
        case UnknownArg(x) => UnknownVariable(x)
        case ArgCode(nodes, results) =>
          var at := n + 1 + |nodes|;
          Code([ValueNode(Other(GET_GLOBAL), n, [], name, ops.zero)] + nodes +
            [ValueNode(Other(CALL), at, [n] + results, |results|, ops.zero)], at)
      }
  }

  lemma {:induction false} PowUnfolds<V, W>(b: Expr<V>, x: Expr<V>, params: map<nat, nat>, n: nat, ops: Ops<V, W>)
    ensures Emitted(Pow(b, x), params, n, ops) ==
      var first := Emitted(if ops.exponentFirst then x else b, params, n, ops);
      if first.UnknownVariable? then first else
      var second := Emitted(if ops.exponentFirst then b else x, params, n + |first.nodes|, ops);
      if second.UnknownVariable? then second else
      var at := n + |first.nodes| + |second.nodes|;
      Code(first.nodes + second.nodes + [PowNode(at, first.result, second.result, ops)], at)
  {
    hide EmittedAll, EmittedRest, EmittedArgs;
  }

  function EmittedAll<V, W>(op: nat, args: Exprs<V>, neutral: V, params: map<nat, nat>, n: nat, ops: Ops<V, W>): Code<V>
    decreases args, 1
  {
    match args
    case Nil => Code([ConstantNode(n, neutral)], n)
    case Cons(first, rest) =>
      match Emitted(first, params, n, ops) {
        case UnknownVariable(x) => UnknownVariable(x)
        case Code(nodes, r) =>
          match EmittedRest(op, rest, r, params, n + |nodes|, ops) {
            case UnknownVariable(x) => UnknownVariable(x)
            case Code(more, result) => Code(nodes + more, result)
          }
      }
  }

  function EmittedRest<V, W>(op: nat, args: Exprs<V>, acc: nat, params: map<nat, nat>, n: nat, ops: Ops<V, W>): Code<V>
    decreases args, 0
  {
    match args
    case Nil => Code([], acc)
    case Cons(next, rest) =>
      match Emitted(next, params, n, ops) {
        case UnknownVariable(x) => UnknownVariable(x)
        case Code(nodes, r) =>
          var at := n + |nodes|;
          match EmittedRest(op, rest, at, params, at + 1, ops) {
            case UnknownVariable(x) => UnknownVariable(x)
            case Code(more, result) => Code(nodes + [BinaryNode(op, at, acc, r, ops.zero)] + more, result)
          }
      }
  }

  function EmittedArgs<V, W>(args: Exprs<V>, params: map<nat, nat>, n: nat, ops: Ops<V, W>): ArgCode<V>
    decreases args, 0
  {
    match args
    case Nil => ArgCode([], [])
    case Cons(first, rest) =>
      match Emitted(first, params, n, ops) {
        case UnknownVariable(x) => UnknownArg(x)
        case Code(nodes, r) =>
          match EmittedArgs(rest, params, n + |nodes|, ops) {
            case UnknownArg(x) => UnknownArg(x)
            case ArgCode(more, results) => ArgCode(nodes + more, [r] + results)
          }
      }
  }

  /** All variables are parameters. */
  predicate Closed<V>(e: Expr<V>, params: map<nat, nat>)
    decreases e
  {
    match e
    case Number(_) => true
    case Variable(x) => x in params
    case Add(args) => AllClosed(args, params)
    case Mul(args) => AllClosed(args, params)
    case Pow(b, x) => Closed(b, params) && Closed(x, params)
    case Func(_, args) => AllClosed(args, params)
  }

  predicate AllClosed<V>(args: Exprs<V>, params: map<nat, nat>)
    decreases args
  {
    args.Nil? || (Closed(args.head, params) && AllClosed(args.tail, params))
  }

  /** Emission fails exactly on an unknown variable. */
  lemma {:induction false} EmittedExactly<V, W>(e: Expr<V>, params: map<nat, nat>, n: nat, ops: Ops<V, W>)
    ensures Emitted(e, params, n, ops).Code? <==> Closed(e, params)
    decreases e, 2
  {
    match e
    case Number(_) =>
    case Variable(_) =>
    case Add(args) => AllEmittedExactly(ADD, args, ops.zero, params, n, ops);
    case Mul(args) => AllEmittedExactly(MUL, args, ops.one, params, n, ops);
    case Pow(b, x) =>
      PowUnfolds(b, x, params, n, ops);
      EmittedExactly(if ops.exponentFirst then x else b, params, n, ops);
      var first := Emitted(if ops.exponentFirst then x else b, params, n, ops);
      if first.Code? {
        EmittedExactly(if ops.exponentFirst then b else x, params, n + |first.nodes|, ops);
      }
    case Func(_, args) => ArgsEmittedExactly(args, params, n + 1, ops);
  }

  lemma {:induction false} AllEmittedExactly<V, W>(op: nat, args: Exprs<V>, neutral: V, params: map<nat, nat>, n: nat,
                                                   ops: Ops<V, W>)
    ensures EmittedAll(op, args, neutral, params, n, ops).Code? <==> AllClosed(args, params)
    decreases args, 1
  {
    if args.Cons? {
      EmittedExactly(args.head, params, n, ops);
      var first := Emitted(args.head, params, n, ops);
      if first.Code? { RestEmittedExactly(op, args.tail, first.result, params, n + |first.nodes|, ops); }
    }
  }

  lemma {:induction false} RestEmittedExactly<V, W>(op: nat, args: Exprs<V>, acc: nat, params: map<nat, nat>, n: nat,
                                                    ops: Ops<V, W>)
    ensures EmittedRest(op, args, acc, params, n, ops).Code? <==> AllClosed(args, params)
    decreases args, 0
  {
    if args.Cons? {
      EmittedExactly(args.head, params, n, ops);
      var next := Emitted(args.head, params, n, ops);
      if next.Code? {
        var at := n + |next.nodes|;
        RestEmittedExactly(op, args.tail, at, params, at + 1, ops);
      }
    }
  }

  lemma {:induction false} ArgsEmittedExactly<V, W>(args: Exprs<V>, params: map<nat, nat>, n: nat, ops: Ops<V, W>)
    ensures EmittedArgs(args, params, n, ops).ArgCode? <==> AllClosed(args, params)
    decreases args, 0
  {
    if args.Cons? {
      EmittedExactly(args.head, params, n, ops);
      var first := Emitted(args.head, params, n, ops);
      if first.Code? { ArgsEmittedExactly(args.tail, params, n + |first.nodes|, ops); }
    }
  }

  // ----- The builder -----

  /** The nodes so far, their explicit predecessors and control inputs, and the parameters. */
  /** The nodes that are appended as effects. */
  predicate Effectful<V>(node: Node<V>) {
    node.op.Other? && node.op.code >= GET_GLOBAL
  }

  lemma BinaryIsPlain<V>(op: nat, n: nat, left: nat, right: nat, filler: V)
    requires op <= POW
    ensures !Effectful(BinaryNode(op, n, left, right, filler))
  {
  }

  lemma PowIsPlain<V, W>(n: nat, first: nat, second: nat, ops: Ops<V, W>)
    ensures !Effectful(PowNode(n, first, second, ops))
  {
  }

  /** `c` is the last effect among the first `count` nodes. */
  ghost predicate LastEffect<V>(nodes: seq<Node<V>>, count: nat, c: int) {
    0 <= c < count <= |nodes| && Effectful(nodes[c]) && forall j :: c < j < count ==> !Effectful(nodes[j])
  }

  lemma LastEffectStays<V>(nodes: seq<Node<V>>, node: Node<V>)
    ensures forall i: nat, c: int :: LastEffect(nodes, i, c) ==> LastEffect(nodes + [node], i, c)
    ensures forall c: int :: LastEffect(nodes, |nodes|, c) ==>
      LastEffect(nodes + [node], |nodes| + 1, if Effectful(node) then |nodes| else c)
  {
  }

  class SymbolicIRBuilder<!V> {
    var nodes: seq<Node<V>>
    var seqPrev: seq<int>
    var control: seq<int>
    var last: nat
    var currentSeq: nat
    var params: map<nat, nat>

    /** Every node follows the one created before it, and its control input is the last effect before it. */
    ghost predicate Chained()
      reads this
    {
      && |nodes| == |seqPrev| == |control| > 0 && last == |nodes| - 1 && LastEffect(nodes, |nodes|, currentSeq)
      && seqPrev[0] == -1 && control[0] == -1
      && forall i :: 0 < i < |nodes| ==> seqPrev[i] == i - 1 && LastEffect(nodes, i, control[i])
    }

    constructor (filler: V)
      ensures Chained() && nodes == [Node(Other(START), NO_REG, [], 0, filler)] && params == map[]
    {
      nodes := [Node(Other(START), NO_REG, [], 0, filler)];
      seqPrev, control, last, currentSeq, params := [-1], [-1], 0, 0, map[];
    }

    method Append(node: Node<V>, effect: bool) returns (n: nat)
      requires Chained() && (effect <==> Effectful(node))
      modifies this
      ensures Chained() && nodes == old(nodes) + [node] && n == |old(nodes)| && params == old(params)
      ensures seqPrev == old(seqPrev) + [old(last)] && control == old(control) + [old(currentSeq)]
      ensures last == n && currentSeq == if effect then n else old(currentSeq)
    {
      LastEffectStays(nodes, node);
      n := |nodes|;
      nodes := nodes + [node];
      seqPrev := seqPrev + [last];
      control := control + [currentSeq];
      last := n;
      if effect { currentSeq := n; }
    }

    method DeclareParameter(name: nat, index: nat, filler: V)
      requires Chained()
      modifies this
      ensures Chained() && nodes == old(nodes) + [ValueNode(Parameter, |old(nodes)|, [], index, filler)]
      ensures params == old(params)[name := |old(nodes)|]
    {
      var n := Append(ValueNode(Parameter, |nodes|, [], index, filler), false);
      params := params[name := n];
    }

    method Emit<W>(e: Expr<V>, ops: Ops<V, W>) returns (code: Code<V>)
      requires Chained()
      modifies this
      ensures Chained() && params == old(params) && code == Emitted(e, params, |old(nodes)|, ops)
      ensures code.Code? ==> nodes == old(nodes) + code.nodes
      decreases e, 2
    {
      ghost var before := nodes;
      match e
      case Number(v) =>
        var n := Append(ConstantNode(|nodes|, v), false);
        return Code([ConstantNode(n, v)], n);
      case Variable(x) =>
        if x !in params { return UnknownVariable(x); }
        assert nodes + [] == nodes;
        return Code([], params[x]);
      case Add(args) =>
        code := EmitAll(ADD, args, ops.zero, ops);
      case Mul(args) =>
        code := EmitAll(MUL, args, ops.one, ops);
      case Pow(b, x) =>
        code := EmitPow(b, x, ops);
      case Func(name, args) =>
        code := EmitFunc(name, args, ops);
    }

    method EmitPow<W>(b: Expr<V>, x: Expr<V>, ops: Ops<V, W>) returns (code: Code<V>)
      requires Chained()
      modifies this
      ensures Chained() && params == old(params) && code == Emitted(Pow(b, x), params, |old(nodes)|, ops)
      ensures code.Code? ==> nodes == old(nodes) + code.nodes
      decreases Pow(b, x), 1
    {
      hide Emitted, PowNode;
      ghost var before := nodes;
      PowUnfolds(b, x, params, |before|, ops);
      var first := Emit(if ops.exponentFirst then x else b, ops);
      if first.UnknownVariable? { return first; }
      ghost var middle := nodes;
      var second := Emit(if ops.exponentFirst then b else x, ops);
      if second.UnknownVariable? { return second; }
      var node := PowNode(|nodes|, first.result, second.result, ops);
      PowIsPlain(|nodes|, first.result, second.result, ops);
      var n := Append(node, false);
      assert nodes == middle + second.nodes + [node];
      assert nodes == before + (first.nodes + second.nodes + [node]);
      code := Code(first.nodes + second.nodes + [node], n);
    }

    method EmitFunc<W>(name: nat, args: Exprs<V>, ops: Ops<V, W>) returns (code: Code<V>)
      requires Chained()
      modifies this
      ensures Chained() && params == old(params) && code == Emitted(Func(name, args), params, |old(nodes)|, ops)
      ensures code.Code? ==> nodes == old(nodes) + code.nodes
      decreases Func(name, args), 1
    {
      ghost var before := nodes;
      var globalNode := ValueNode(Other(GET_GLOBAL), |nodes|, [], name, ops.zero);
      var callee := Append(globalNode, true);
      var argCode := EmitArgs(args, ops);
      if argCode.UnknownArg? { return UnknownVariable(argCode.name); }
      var callNode := ValueNode(Other(CALL), |nodes|, [callee] + argCode.results, |argCode.results|, ops.zero);
      var n := Append(callNode, true);
      assert nodes == before + ([globalNode] + argCode.nodes + [callNode]);
      code := Code([globalNode] + argCode.nodes + [callNode], n);
    }

    method EmitAll<W>(op: nat, args: Exprs<V>, neutral: V, ops: Ops<V, W>) returns (code: Code<V>)
      requires Chained() && op <= POW
      modifies this
      ensures Chained() && params == old(params) && code == EmittedAll(op, args, neutral, params, |old(nodes)|, ops)
      ensures code.Code? ==> nodes == old(nodes) + code.nodes
      decreases args, 1
    {
      if args.Nil? {
        var n := Append(ConstantNode(|nodes|, neutral), false);
        return Code([ConstantNode(n, neutral)], n);
      }
      ghost var before := nodes;
      var first := Emit(args.head, ops);
      if first.UnknownVariable? { return first; }
      var rest := EmitRest(op, args.tail, first.result, ops);
      if rest.UnknownVariable? { return rest; }
      assert nodes == before + (first.nodes + rest.nodes);
      return Code(first.nodes + rest.nodes, rest.result);
    }

    /** The loop over the remaining arguments. */
    method EmitRest<W>(op: nat, args: Exprs<V>, acc: nat, ops: Ops<V, W>) returns (code: Code<V>)
      requires Chained() && op <= POW
      modifies this
      ensures Chained() && params == old(params) && code == EmittedRest(op, args, acc, params, |old(nodes)|, ops)
      ensures code.Code? ==> nodes == old(nodes) + code.nodes
      decreases args, 0
    {
      if args.Nil? {
        assert nodes + [] == nodes;
        return Code([], acc);
      }
      hide LastEffect, Effectful;
      ghost var before := nodes;
      var right := Emit(args.head, ops);
      if right.UnknownVariable? { return right; }
      var node := BinaryNode(op, |nodes|, acc, right.result, ops.zero);
      BinaryIsPlain(op, |nodes|, acc, right.result, ops.zero);
      var n := Append(node, false);
      var rest := EmitRest(op, args.tail, n, ops);
      if rest.UnknownVariable? { return rest; }
      assert nodes == before + (right.nodes + [node] + rest.nodes);
      return Code(right.nodes + [node] + rest.nodes, rest.result);
    }

    method EmitArgs<W>(args: Exprs<V>, ops: Ops<V, W>) returns (code: ArgCode<V>)
      requires Chained()
      modifies this
      ensures Chained() && params == old(params) && code == EmittedArgs(args, params, |old(nodes)|, ops)
      ensures code.ArgCode? ==> nodes == old(nodes) + code.nodes
      decreases args, 0
    {
      if args.Nil? {
        assert nodes + [] == nodes;
        return ArgCode([], []);
      }
      ghost var before := nodes;
      var first := Emit(args.head, ops);
      if first.UnknownVariable? { return UnknownArg(first.name); }
      var rest := EmitArgs(args.tail, ops);
      if rest.UnknownArg? { return rest; }
      assert nodes == before + (first.nodes + rest.nodes);
      return ArgCode(first.nodes + rest.nodes, [first.result] + rest.results);
    }

    method Finish(value: nat, filler: V)
      requires Chained()
      modifies this
      ensures Chained() && nodes == old(nodes) + [Node(Other(RETURN), NO_REG, [value], 0, filler)]
      ensures params == old(params)
    {
      var n := Append(Node(Other(RETURN), NO_REG, [value], 0, filler), true);
    }
  }
}
