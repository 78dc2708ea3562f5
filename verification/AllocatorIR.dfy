/** The part of the scheduled IR graph that register allocation looks at
    (src/compiler/IR.h), and what running it means. */
module AllocatorIR {

  /** Ops that the allocator treats specially; every other op is `Other`. */
  datatype Op = Parameter | Constant | Move | TryBegin | TryEnd | Catch | Other(code: nat)

  /** "No register": the source's -1. */
  const NO_REG := -1

  /** `payload` is the slot of a Parameter, `value` the value of a Constant. */
  datatype Node<V> = Node(op: Op, vreg: int, inputs: seq<nat>, payload: nat, value: V)

  /** `instructions` starts with the block's control node. */
  datatype Block = Block(instructions: seq<nat>, succs: seq<nat>)

  /** `captured` are the nodes whose registers closures or callees may reach. */
  datatype Graph<V> = Graph(nodes: seq<Node<V>>, captured: set<nat>, blocks: seq<Block>) {

    ghost predicate Valid() {
      && (forall n :: 0 <= n < |nodes| ==> nodes[n].vreg >= NO_REG)
      && (forall n, i :: 0 <= n < |nodes| && 0 <= i < |nodes[n].inputs| ==> nodes[n].inputs[i] < |nodes|)
      && (forall b, k :: 0 <= b < |blocks| && 0 <= k < |blocks[b].instructions| ==> blocks[b].instructions[k] < |nodes|)
      && (forall b, k :: 0 <= b < |blocks| && 0 <= k < |blocks[b].succs| ==> blocks[b].succs[k] < |blocks|)
      && (forall n :: 0 <= n < |nodes| && nodes[n].op.Constant? ==> nodes[n].inputs == [])
      && (forall n :: 0 <= n < |nodes| && nodes[n].op.Parameter? ==> nodes[n].inputs == [])
      && (forall n :: 0 <= n < |nodes| && nodes[n].op.Move? ==> nodes[n].vreg != NO_REG && |nodes[n].inputs| == 1)
      && (forall m, n :: 0 <= m < |nodes| && 0 <= n < |nodes| && IsPlainConstant(m) && nodes[n].vreg == nodes[m].vreg
            ==> IsPlainConstant(n))
      && (forall m, n :: 0 <= m < n < |nodes| && IsParameter(m) && IsParameter(n) ==>
            nodes[m].vreg != nodes[n].vreg && nodes[m].payload != nodes[n].payload)
    }

    /** A constant that no closure captures: it lives in the constant pool, not in a register. */
    predicate IsPlainConstant(n: nat) {
      n < |nodes| && nodes[n].op.Constant? && nodes[n].vreg != NO_REG && n !in captured
    }

    predicate IsParameter(n: nat) {
      n < |nodes| && nodes[n].op.Parameter? && nodes[n].vreg != NO_REG
    }

    function PlainConstants(): set<int> {
      set n | 0 <= n < |nodes| && IsPlainConstant(n) :: nodes[n].vreg
    }

    /** The virtual registers that node `n` reads; pool constants are not read from registers. */
    function Reads(consts: set<int>, n: nat): set<int> {
      if n < |nodes| then
        set i | 0 <= i < |nodes[n].inputs| && nodes[n].inputs[i] < |nodes|
                && nodes[nodes[n].inputs[i]].vreg != NO_REG && nodes[nodes[n].inputs[i]].vreg !in consts
             :: nodes[nodes[n].inputs[i]].vreg
      else {}
    }

    /** The virtual registers that node `n` writes. */
    function Writes(n: nat): set<int> {
      if n < |nodes| && nodes[n].vreg != NO_REG then {nodes[n].vreg} else {}
    }

    /** For a Move, the register it copies from. */
    function MoveSource(n: nat): int {
      if n < |nodes| && nodes[n].op.Move? && |nodes[n].inputs| == 1 && nodes[n].inputs[0] < |nodes|
      then nodes[nodes[n].inputs[0]].vreg else NO_REG
    }

    function Instructions(b: nat): seq<nat> {
      if b < |blocks| then blocks[b].instructions else []
    }

    function Succs(b: nat): seq<nat> {
      if b < |blocks| then blocks[b].succs else []
    }
  }

  // ----- Meaning -----

  /** What the operators do: node, operand values and world give result and new world. */
  type Semantics<!V, !W> = (nat, seq<Operand<V>>, W) -> (V, W)

  /** The value an operand stands for; a control input stands for nothing. */
  datatype Operand<V> = Absent | Given(value: V)

  /** One executed instruction together with the operand values it saw. */
  datatype Event<V> = Event(node: nat, operands: seq<Operand<V>>)

  datatype Machine<!V, W> = Machine(regs: int -> V, world: W, trace: seq<Event<V>>)

  /** The operand values node `n` reads when register `r` is found at location `place(r)`. */
  function Operands<V>(g: Graph<V>, consts: set<int>, place: int -> int, regs: int -> V, n: nat): seq<Operand<V>>
  {
    if n < |g.nodes| then
      seq(|g.nodes[n].inputs|,
        i requires 0 <= i < |g.nodes[n].inputs| => OperandOf(g, consts, place, regs, g.nodes[n].inputs[i]))
    else []
  }

  function OperandOf<V>(g: Graph<V>, consts: set<int>, place: int -> int, regs: int -> V, s: nat): Operand<V>
  {
    if s >= |g.nodes| || g.nodes[s].vreg == NO_REG then Absent
    else if g.nodes[s].vreg in consts then Given(g.nodes[s].value)
    else Given(regs(place(g.nodes[s].vreg)))
  }

  function Put<V>(regs: int -> V, at: int, v: V): int -> V {
    x => if x == at then v else regs(x)
  }

  /** The result of node `n` on the given operands, and the world after it. */
  function Result<V, W>(g: Graph<V>, sem: Semantics<V, W>, args: nat -> V, n: nat, operands: seq<Operand<V>>, w: W): (V,
                        W)
  {
    if n >= |g.nodes| then sem(n, operands, w) else
    match g.nodes[n].op
    case Parameter => (args(g.nodes[n].payload), w)
    case Constant => (g.nodes[n].value, w)
    case Move => if |operands| == 1 && operands[0].Given? then (operands[0].value, w) else sem(n, operands, w)
    case _ => sem(n, operands, w)
  }

  /** One step on virtual registers: every node writes its own register. */
  function VirtualStep<V, W>(g: Graph<V>, consts: set<int>, sem: Semantics<V, W>, args: nat -> V, n: nat, m: Machine<V,
                             W>): Machine<V, W>
  {
    var operands := Operands(g, consts, r => r, m.regs, n);
    var (v, w) := Result(g, sem, args, n, operands, m.world);
    Machine(if n < |g.nodes| && g.nodes[n].vreg != NO_REG then Put(m.regs, g.nodes[n].vreg, v) else m.regs,
            w, m.trace + [Event(n, operands)])
  }

  /** One step on the frame: a Parameter is already in its slot and a pool constant is never loaded,
      so neither emits code. */
  function PhysicalStep<V, W>(g: Graph<V>, consts: set<int>, sem: Semantics<V, W>, args: nat -> V, place: int -> int,
                              n: nat, m: Machine<V, W>): Machine<V, W>
  {
    var operands := Operands(g, consts, place, m.regs, n);
    var (v, w) := Result(g, sem, args, n, operands, m.world);
    var writes := n < |g.nodes| && g.nodes[n].vreg != NO_REG && g.nodes[n].vreg !in consts && !g.nodes[n].op.Parameter?;
    Machine(if writes then Put(m.regs, place(g.nodes[n].vreg), v) else m.regs,
            w, m.trace + [Event(n, operands)])
  }

  function VirtualBlock<V, W>(g: Graph<V>, consts: set<int>, sem: Semantics<V, W>, args: nat -> V, code: seq<nat>,
                              m: Machine<V, W>): Machine<V, W>
  {
    if code == [] then m
    else VirtualBlock(g, consts, sem, args, code[1..], VirtualStep(g, consts, sem, args, code[0], m))
  }

  function PhysicalBlock<V, W>(g: Graph<V>, consts: set<int>, sem: Semantics<V, W>, args: nat -> V, place: int -> int,
                               code: seq<nat>, m: Machine<V, W>): Machine<V, W>
  {
    if code == [] then m
    else PhysicalBlock(g, consts, sem, args, place, code[1..], PhysicalStep(g, consts, sem, args, place, code[0], m))
  }

  /** A visit of a block: its first `upTo` instructions run to completion; with `throws`, the next one
      then leaves the block by an exception, having had its effect on the world but written no register. */
  datatype Visit = Visit(block: nat, upTo: nat, throws: bool)

  function ThrowStep<V, W>(g: Graph<V>, consts: set<int>, sem: Semantics<V, W>, args: nat -> V, place: int -> int,
                           n: nat, m: Machine<V, W>): Machine<V, W>
  {
    var operands := Operands(g, consts, place, m.regs, n);
    Machine(m.regs, Result(g, sem, args, n, operands, m.world).1, m.trace + [Event(n, operands)])
  }

  function VirtualVisit<V, W>(g: Graph<V>, consts: set<int>, sem: Semantics<V, W>, args: nat -> V, v: Visit,
                              m: Machine<V, W>): Machine<V, W>
  {
    var code := g.Instructions(v.block);
    if v.upTo > |code| then m else
    var m' := VirtualBlock(g, consts, sem, args, code[..v.upTo], m);
    if v.throws && v.upTo < |code| then ThrowStep(g, consts, sem, args, r => r, code[v.upTo], m') else m'
  }

  function PhysicalVisit<V, W>(g: Graph<V>, consts: set<int>, sem: Semantics<V, W>, args: nat -> V, place: int -> int,
                               v: Visit, m: Machine<V, W>): Machine<V, W>
  {
    var code := g.Instructions(v.block);
    if v.upTo > |code| then m else
    var m' := PhysicalBlock(g, consts, sem, args, place, code[..v.upTo], m);
    if v.throws && v.upTo < |code| then ThrowStep(g, consts, sem, args, place, code[v.upTo], m') else m'
  }

  function VirtualRun<V, W>(g: Graph<V>, consts: set<int>, sem: Semantics<V, W>, args: nat -> V, path: seq<Visit>,
                            m: Machine<V, W>): Machine<V, W>
  {
    if path == [] then m
    else VirtualRun(g, consts, sem, args, path[1..], VirtualVisit(g, consts, sem, args, path[0], m))
  }

  function PhysicalRun<V, W>(g: Graph<V>, consts: set<int>, sem: Semantics<V, W>, args: nat -> V, place: int -> int,
                             path: seq<Visit>, m: Machine<V, W>): Machine<V, W>
  {
    if path == [] then m else
      PhysicalRun(g, consts, sem, args, place, path[1..], PhysicalVisit(g, consts, sem, args, place, path[0], m))
  }
}
