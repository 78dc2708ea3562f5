/** Why handlers must be sheltered: a graph in which the allocation of src/compiler/RegisterAllocator.cpp:256-371 loses
    a value that a handler reads. */
module UnshelteredHandler {
  import opened AllocatorIR
  import opened Liveness
  import opened Interference
  import opened RegisterAllocator
  import opened HandlerStacks
  import opened AllocationMeaning
  import opened DefinedRuns

  function Control(op: Op): Node<int> {
    Node(op, NO_REG, [], 0, 0)
  }

  /** Block 0 copies parameter 0 to register 1 and enters the try block 1; block 2 computes register 2, uses it, copies
      it to register 1 and repeats; the handler, block 3, reads register 1. */
  function Program(): Graph<int> {
    Graph([Control(Other(0)), Node(Parameter, 0, [], 0, 0), Node(Move, 1, [1], 0, 0), Control(TryBegin),
           Control(Other(1)), Node(Other(2), 2, [], 0, 0), Node(Other(3), NO_REG, [5], 0, 0), Node(Move, 1, [5], 0, 0),
           Control(Catch), Node(Other(4), NO_REG, [2], 0, 0)],
          {},
          [Block([0, 1, 2], [1]), Block([3], [2, 3]), Block([4, 5, 6, 7], [2]), Block([8, 9], [])])
  }

  /** Registers 1 and 2 share a place. */
  function Shared(): Allocation {
    Allocation([0, 1, 1], [{}, {3}, {3}, {}], [{}, {1}, {}, {1}], [{1}, {1}, {1}, {}])
  }

  function Stacks(): seq<seq<nat>> {
    [[], [], [3], []]
  }

  /** Node 5 computes one, everything else nothing. */
  function Ones(n: nat, operands: seq<Operand<int>>, w: int): (int, int) {
    (if n == 5 then 1 else 0, w)
  }

  /** The first pass of the loop throws in the use of register 2. */
  function Path(): seq<Visit> {
    [Visit(0, 3, false), Visit(1, 1, false), Visit(2, 2, true), Visit(3, 2, false)]
  }

  lemma Shape()
    ensures var g := Program();
      && |g.nodes| == 10 && |g.blocks| == 4
      && (forall n :: 0 <= n < 10 ==> g.nodes[n].vreg >= NO_REG && !g.nodes[n].op.Constant?)
      && (forall n, i :: 0 <= n < 10 && 0 <= i < |g.nodes[n].inputs| ==> g.nodes[n].inputs[i] < 10)
      && (forall b, k :: 0 <= b < 4 && 0 <= k < |g.blocks[b].instructions| ==> g.blocks[b].instructions[k] < 10)
      && (forall b, k :: 0 <= b < 4 && 0 <= k < |g.blocks[b].succs| ==> g.blocks[b].succs[k] < 4)
  {
  }

  lemma Special()
    ensures var g := Program();
      && (forall n :: 0 <= n < 10 && g.nodes[n].op.Parameter? ==> n == 1)
      && (forall n :: 0 <= n < 10 && g.nodes[n].op.Move? ==> n == 2 || n == 7)
      && g.nodes[1].inputs == [] && g.nodes[1].vreg == 0 && g.nodes[5].vreg == 2
      && g.nodes[2].vreg == 1 && g.nodes[2].inputs == [1] && g.nodes[7].vreg == 1 && g.nodes[7].inputs == [5]
  {
  }

  lemma Plain()
    ensures Program().Valid() && Program().PlainConstants() == {}
  {
    Shape();
    Special();
    hide Program;
  }

  lemma Reading()
    ensures var g := Program();
      && g.Reads({}, 0) == {} && g.Reads({}, 1) == {} && g.Reads({}, 2) == {0} && g.Reads({}, 3) == {}
      && g.Reads({}, 4) == {}
      && g.Reads({}, 5) == {} && g.Reads({}, 6) == {2} && g.Reads({}, 7) == {2} && g.Reads({}, 8) == {}
      && g.Reads({}, 9) == {1}
  {
    var g := Program();
    assert g.nodes[2].inputs[0] == 1 && g.nodes[6].inputs[0] == 5 && g.nodes[7].inputs[0] == 5;
    assert g.nodes[9].inputs[0] == 2;
  }

  lemma Writing()
    ensures var g := Program();
      && g.Writes(0) == {} && g.Writes(1) == {0} && g.Writes(2) == {1} && g.Writes(3) == {} && g.Writes(4) == {}
      && g.Writes(5) == {2} && g.Writes(6) == {} && g.Writes(7) == {1} && g.Writes(8) == {} && g.Writes(9) == {}
  {
  }

  lemma UseDefs()
    ensures var g := Program();
      && Use(g, {}, 0) == {} && Def(g, {}, 0) == {0, 1} && Use(g, {}, 1) == {} && Def(g, {}, 1) == {}
      && Use(g, {}, 2) == {} && Def(g, {}, 2) == {1, 2} && Use(g, {}, 3) == {1} && Def(g, {}, 3) == {}
  {
    Reading();
    Writing();
    var g := Program();
    assert DefsUpTo(g, {}, 0, 0) == {} && DefsUpTo(g, {}, 0, 1) == {} && DefsUpTo(g, {}, 0, 2) == {0};
    assert DefsUpTo(g, {}, 0, 3) == {0, 1};
    assert UsesUpTo(g, {}, 0, 0) == {} && UsesUpTo(g, {}, 0, 1) == {} && UsesUpTo(g, {}, 0, 2) == {};
    assert UsesUpTo(g, {}, 0, 3) == {};
    assert DefsUpTo(g, {}, 1, 0) == {} && DefsUpTo(g, {}, 1, 1) == {} && UsesUpTo(g, {}, 1, 0) == {};
    assert UsesUpTo(g, {}, 1, 1) == {};
    assert DefsUpTo(g, {}, 2, 0) == {} && DefsUpTo(g, {}, 2, 1) == {} && DefsUpTo(g, {}, 2, 2) == {2} &&
      DefsUpTo(g, {}, 2, 3) == {2}
      && DefsUpTo(g, {}, 2, 4) == {1, 2};
    assert UsesUpTo(g, {}, 2, 0) == {} && UsesUpTo(g, {}, 2, 1) == {} && UsesUpTo(g, {}, 2, 2) == {} &&
      UsesUpTo(g, {}, 2, 3) == {}
      && UsesUpTo(g, {}, 2, 4) == {};
    assert DefsUpTo(g, {}, 3, 0) == {} && DefsUpTo(g, {}, 3, 1) == {} && DefsUpTo(g, {}, 3, 2) == {};
    assert UsesUpTo(g, {}, 3, 0) == {} && UsesUpTo(g, {}, 3, 1) == {} && UsesUpTo(g, {}, 3, 2) == {1};
  }

  /** What is live behind the writes: never one of registers 1 and 2 behind a write of the other. */
  lemma LiveBehind()
    ensures var g := Program();
      && LiveBefore(g, {}, 0, 3, {1}) == {1} && LiveBefore(g, {}, 0, 2, {1}) == {0}
      && LiveBefore(g, {}, 0, 1, {1}) == {}
      && LiveBefore(g, {}, 2, 4, {1}) == {1} && LiveBefore(g, {}, 2, 3, {1}) == {2}
      && LiveBefore(g, {}, 2, 2, {1}) == {2}
      && LiveBefore(g, {}, 2, 1, {1}) == {}
  {
    Reading();
    Writing();
  }

  lemma NoClashAt(b: nat, k: nat, u: int, v: int)
    requires b < 4
    ensures !ClashAt(Program(), {}, b, k, Shared().liveOut[b], u, v)
  {
    Writing();
    LiveBehind();
    MoveSources();
    CodeOf(b, k);
    hide LiveBefore, Program;
  }

  lemma MoveSources()
    ensures Program().MoveSource(2) == 0 && Program().MoveSource(7) == 2
  {
  }

  lemma CodeOf(b: nat, k: nat)
    requires b < 4
    ensures var code := Program().Instructions(b);
      k < |code| ==>
        code[k] < 10 && code[k] == if b == 0 then k else if b == 1 then 3 else if b == 2 then k + 4 else k + 8
    ensures |Program().Instructions(b)| == if b == 0 then 3 else if b == 1 then 1 else if b == 2 then 4 else 2
  {
  }

  lemma NoClash(u: int, v: int)
    ensures !Clash(Program(), {}, Shared().liveOut, u, v)
  {
    hide ClashAt;
    forall b: nat, k: nat, x: int, y: int | b < 4 ensures !ClashAt(Program(), {}, b, k, Shared().liveOut[b], x, y) {
      NoClashAt(b, k, x, y);
    }
  }

  lemma SharedFlows()
    ensures FlowsLive(Program(), {}, Shared())
  {
    UseDefs();
    Shape();
    hide UsesUpTo, DefsUpTo;
    var g, a := Program(), Shared();
    forall b, s: nat | 0 <= b < 4 && s < 4 && Flows(g, a.extra, b, s) ensures a.liveIn[s] <= a.liveOut[b] { }
  }

  lemma SharedPlaces()
    ensures Placed(Program(), {}, Shared().color)
  {
    Shape();
    Special();
    assert forall n :: 0 <= n < 10 ==> Program().nodes[n].vreg < 3;
    hide Program, Occurs;
  }

  /** The allocation keeps all that the allocator promises. */
  lemma IsFaithful()
    ensures Faithful(Program(), {}, Shared())
  {
    var g, a := Program(), Shared();
    SharedFlows();
    SharedPlaces();
    assert Mentions(g, {}, g.blocks[0].instructions[2], 1) by { Writing(); }
    assert Occurs(g, {}, 1) by { hide Mentions; }
    hide Clash, FlowsLive, Placed, Occurs;
    forall u, v ensures !Clash(g, {}, a.liveOut, u, v) { NoClash(u, v); }
  }

  lemma Heads()
    ensures var g := Program();
      && HandlerFrom(g, g.Succs(1)) == 3 && g.Succs(0) == [1] && g.Succs(1) == [2, 3] && g.Succs(2) == [2]
      && g.Succs(3) == []
      && (forall b: nat :: StartsWith(g, b, TryBegin) <==> b == 1)
      && (forall b: nat :: StartsWith(g, b, Catch) <==> b == 3)
      && (forall b: nat :: !StartsWith(g, b, TryEnd))
  {
    var g := Program();
    assert g.Succs(1)[1..] == [3];
    forall b: nat
      ensures (StartsWith(g, b, TryBegin) <==> b == 1) && (StartsWith(g, b, Catch) <==> b == 3)
      ensures !StartsWith(g, b, TryEnd)
    {
      if b < 4 {
        assert g.blocks[b].instructions[0] == if b == 0 then 0 else if b == 1 then 3 else if b == 2 then 4 else 8;
      }
    }
  }

  lemma Regions()
    ensures ExactHandlers(Program(), Shared())
  {
    var g, a := Program(), Shared();
    Heads();
    Shape();
    forall c, h: nat | 0 <= c < 4 ensures h in a.extra[c] <==> Guards(g, h, c) {
      RegionOfTry(c);
      hide InRegion, StartsWith, HandlerFrom;
      if Guards(g, h, c) {
        var t: nat :| t < |g.blocks| && StartsWith(g, t, TryBegin) && HandlerFrom(g, g.Succs(t)) == h &&
          InRegion(g, t, h, c);
        assert t == 1;
      }
    }
  }

  lemma RegionOfTry(c: nat)
    ensures InRegion(Program(), 1, 3, c) <==> c == 1 || c == 2
  {
    var g := Program();
    Plain();
    assert InRegion(g, 1, 3, 1);
    assert InRegion(g, 1, 3, 2) by { assert 2 in g.Succs(1); }
    if InRegion(g, 1, 3, c) {
      RegionIsSeen(g, 1, 3, c, {1, 2});
    }
  }

  lemma WellStructured()
    ensures Structured(Program(), Stacks())
  {
    Heads();
    hide StartsWith, HandlerFrom;
    var g, typed := Program(), Stacks();
    assert typed[1] == typed[2][..0];
    assert Opened(g, typed, 2, 0);
    hide Opened;
    assert Leaving(g, typed[1], 1) == [3];
    forall b: nat, s: nat | b < 4 && s in g.Succs(b) && s < 4 && !StartsWith(g, s, Catch)
      ensures typed[s] == Leaving(g, typed[b], b)
    {

    }
  }

  lemma RunFrom(stack: seq<nat>, x: Visit, path: seq<Visit>)
    requires x.block < 4 && x.upTo <= |Program().Instructions(x.block)| && path != []
    requires Continues(Program(), stack, x, path[0].block) && IsRun(Program(), Next(Program(), stack, x), path)
    ensures IsRun(Program(), stack, [x] + path)
  {
    hide Continues, Next;
    Shape();
    assert ([x] + path)[1..] == path;
  }

  /** Every visit of the path is followed by the next one. */
  lemma Onward()
    ensures var g, path := Program(), Path();
      && Continues(g, [], path[0], 1) && Next(g, [], path[0]) == []
      && Continues(g, [], path[1], 2) && Next(g, [], path[1]) == [3]
      && Continues(g, [3], path[2], 3) && Next(g, [3], path[2]) == []
  {
    Heads();
    Shape();
    hide StartsWith, HandlerFrom;
  }

  lemma Runs()
    ensures IsRun(Program(), [], Path())
  {
    Onward();
    LastIsRun();
    hide *;
    var x0, x1, x2, x3 := Visit(0, 3, false), Visit(1, 1, false), Visit(2, 2, true), Visit(3, 2, false);
    PathIs();
    RunFrom([3], x2, [x3]);
    RunFrom([], x1, [x2] + [x3]);
    RunFrom([], x0, [x1] + ([x2] + [x3]));
  }

  lemma PathIs()
    ensures Path() == [Visit(0, 3, false)] + ([Visit(1, 1, false)] + ([Visit(2, 2, true)] + [Visit(3, 2, false)]))
    ensures var g := Program();
      |g.Instructions(0)| == 3 && |g.Instructions(1)| == 1 && |g.Instructions(2)| == 4 && |g.Instructions(3)| == 2
  {
  }

  lemma LastIsRun()
    ensures IsRun(Program(), [], [Visit(3, 2, false)])
  {
    hide Continues, Next;
    Shape();
  }

  lemma Entry()
    ensures ParametersFirst(Program(), {}) && EntryOnce(Program(), Shared())
  {
    var g, a := Program(), Shared();
    Heads();
    forall b: nat, k: nat | b < 4 && k < |g.Instructions(b)| && g.IsParameter(g.Instructions(b)[k])
      ensures b == 0 && QuietUpTo(g, {}, k)
    {
      assert b == 0 && k == 1;
    }
  }

  // ----- What the two machines see -----

  function Nothing(n: nat): int {
    0
  }

  function Zeros(r: int): int {
    0
  }

  ghost function VirtualEnd(): Machine<int, int> {
    VirtualRun(Program(), {}, Ones, Nothing, Path(), Machine(Zeros, 0, []))
  }

  ghost function PhysicalEnd(): Machine<int, int> {
    PhysicalRun(Program(), {}, Ones, Nothing, Place(Shared().color), Path(), Machine(Zeros, 0, []))
  }

  function VStep(n: nat, m: Machine<int, int>): Machine<int, int> {
    VirtualStep(Program(), {}, Ones, Nothing, n, m)
  }

  function PStep(n: nat, m: Machine<int, int>): Machine<int, int> {
    PhysicalStep(Program(), {}, Ones, Nothing, Place(Shared().color), n, m)
  }

  function VBlock(code: seq<nat>, m: Machine<int, int>): Machine<int, int> {
    VirtualBlock(Program(), {}, Ones, Nothing, code, m)
  }

  function PBlock(code: seq<nat>, m: Machine<int, int>): Machine<int, int> {
    PhysicalBlock(Program(), {}, Ones, Nothing, Place(Shared().color), code, m)
  }

  lemma Blocks(code: seq<nat>, n: nat, m: Machine<int, int>)
    ensures VBlock([], m) == m && PBlock([], m) == m
    ensures VBlock([n] + code, m) == VBlock(code, VStep(n, m)) && PBlock([n] + code, m) == PBlock(code, PStep(n, m))
  {
    assert ([n] + code)[1..] == code;
  }

  /** Registers 1 and 2, and place 1, after each node. */
  lemma Steps(n: nat, m: Machine<int, int>)
    requires n < 10
    ensures var v := VStep(n, m).regs;
      && (n != 2 && n != 7 ==> v(1) == m.regs(1)) && (n == 2 ==> v(1) == m.regs(0)) && (n == 1 ==> v(0) == 0)
    ensures var p := PStep(n, m).regs;
      && (n == 0 || n == 1 || n == 3 || n == 4 || n == 8 ==> p(1) == m.regs(1)) && (n == 5 ==> p(1) == 1)
  {
    Shape();
  }

  lemma LastEvent(m: Machine<int, int>)
    ensures var t := VStep(9, m).trace; t != [] && t[|t| - 1] == Event(9, [Given(m.regs(1))])
    ensures var t := PStep(9, m).trace; t != [] && t[|t| - 1] == Event(9, [Given(m.regs(1))])
  {
    var g := Program();
    assert g.nodes[9].inputs == [2] && g.nodes[2].vreg == 1;
    assert Operands(g, {}, r => r, m.regs, 9) == [Given(m.regs(1))];
    assert Place(Shared().color)(1) == 1;
    assert Operands(g, {}, Place(Shared().color), m.regs, 9) == [Given(m.regs(1))];
  }

  function VVisit(x: Visit, m: Machine<int, int>): Machine<int, int> {
    VirtualVisit(Program(), {}, Ones, Nothing, x, m)
  }

  function PVisit(x: Visit, m: Machine<int, int>): Machine<int, int> {
    PhysicalVisit(Program(), {}, Ones, Nothing, Place(Shared().color), x, m)
  }

  /** The first two visits leave the parameter in register 1; the third puts one into place 1. */
  lemma Visits(m: Machine<int, int>)
    ensures VVisit(Visit(0, 3, false), m).regs(1) == 0
    ensures VVisit(Visit(1, 1, false), m).regs(1) == m.regs(1)
    ensures VVisit(Visit(2, 2, true), m).regs(1) == m.regs(1)
    ensures PVisit(Visit(2, 2, true), m).regs(1) == 1
  {
    var g := Program();
    assert g.Instructions(0)[..3] == [0] + ([1] + ([2] + [])) && g.Instructions(1)[..1] == [3] + [];
    assert g.Instructions(2)[..2] == [4] + ([5] + []);
    hide VStep, PStep, VirtualBlock, PhysicalBlock, VirtualStep, PhysicalStep;
    var m0 := VStep(0, m);
    var m1 := VStep(1, m0);
    Steps(0, m);
    Steps(1, m0);
    Steps(2, m1);
    Blocks([1] + ([2] + []), 0, m);
    Blocks([2] + [], 1, m0);
    Blocks([], 2, m1);
    Blocks([], 2, VStep(2, m1));
    Steps(3, m);
    Blocks([], 3, m);
    Blocks([], 3, VStep(3, m));
    Steps(4, m);
    Steps(5, VStep(4, m));
    Steps(5, PStep(4, m));
    Blocks([5] + [], 4, m);
    Blocks([], 5, VStep(4, m));
    Blocks([], 5, PStep(4, m));
    Blocks([], 5, VStep(5, VStep(4, m)));
    Blocks([], 5, PStep(5, PStep(4, m)));
  }

  lemma LastVisit(m: Machine<int, int>)
    ensures var t := VVisit(Visit(3, 2, false), m).trace; t != [] && t[|t| - 1] == Event(9, [Given(m.regs(1))])
    ensures var t := PVisit(Visit(3, 2, false), m).trace; t != [] && t[|t| - 1] == Event(9, [Given(m.regs(1))])
  {
    var g := Program();
    assert g.Instructions(3)[..2] == [8] + ([9] + []);
    hide VStep, PStep, VirtualBlock, PhysicalBlock, VirtualStep, PhysicalStep;
    Steps(8, m);
    LastEvent(VStep(8, m));
    LastEvent(PStep(8, m));
    Blocks([9] + [], 8, m);
    Blocks([], 9, VStep(8, m));
    Blocks([], 9, PStep(8, m));
    Blocks([], 9, VStep(9, VStep(8, m)));
    Blocks([], 9, PStep(9, PStep(8, m)));
  }

  lemma Unrolled(m: Machine<int, int>)
    ensures VirtualRun(Program(), {}, Ones, Nothing, Path(), m) ==
      VVisit(Visit(3, 2, false), VVisit(Visit(2, 2, true), VVisit(Visit(1, 1, false), VVisit(Visit(0, 3, false), m))))
    ensures PhysicalRun(Program(), {}, Ones, Nothing, Place(Shared().color), Path(), m) ==
      PVisit(Visit(3, 2, false), PVisit(Visit(2, 2, true), PVisit(Visit(1, 1, false), PVisit(Visit(0, 3, false), m))))
  {
    hide VVisit, PVisit, VRun, PRun;
    var x0, x1, x2, x3 := Visit(0, 3, false), Visit(1, 1, false), Visit(2, 2, true), Visit(3, 2, false);
    assert Path() == [x0] + ([x1] + ([x2] + ([x3] + [])));
    FirstVisit([x1] + ([x2] + ([x3] + [])), x0, m, m);
    var v, p := VVisit(x0, m), PVisit(x0, m);
    FirstVisit([x2] + ([x3] + []), x1, v, p);
    v, p := VVisit(x1, v), PVisit(x1, p);
    FirstVisit([x3] + [], x2, v, p);
    v, p := VVisit(x2, v), PVisit(x2, p);
    FirstVisit([], x3, v, p);
    v, p := VVisit(x3, v), PVisit(x3, p);
    FirstVisit([], x3, v, p);
    RunsAre(m);
  }

  function VRun(path: seq<Visit>, m: Machine<int, int>): Machine<int, int> {
    VirtualRun(Program(), {}, Ones, Nothing, path, m)
  }

  function PRun(path: seq<Visit>, m: Machine<int, int>): Machine<int, int> {
    PhysicalRun(Program(), {}, Ones, Nothing, Place(Shared().color), path, m)
  }

  lemma RunsAre(m: Machine<int, int>)
    ensures VRun(Path(), m) == VirtualRun(Program(), {}, Ones, Nothing, Path(), m)
    ensures PRun(Path(), m) == PhysicalRun(Program(), {}, Ones, Nothing, Place(Shared().color), Path(), m)
  {
  }

  lemma FirstVisit(path: seq<Visit>, x: Visit, v: Machine<int, int>, p: Machine<int, int>)
    ensures VRun([], v) == v && PRun([], p) == p
    ensures VRun([x] + path, v) == VRun(path, VVisit(x, v)) && PRun([x] + path, p) == PRun(path, PVisit(x, p))
  {
    hide VirtualVisit, PhysicalVisit;
    assert ([x] + path)[1..] == path;
  }

  /** The handler's use of register 1 sees the parameter on virtual registers and register 2's value on the frame. */
  lemma HandlerSees()
    ensures var v, p := VirtualEnd().trace, PhysicalEnd().trace;
      && v != [] && p != []
      && v[|v| - 1] == Event(9, [Given(0)]) && p[|p| - 1] == Event(9, [Given(1)])
  {
    hide VVisit, PVisit, VirtualRun, PhysicalRun;
    var m := Machine(Zeros, 0, []);
    Unrolled(m);
    var v0 := VVisit(Visit(0, 3, false), m);
    var v1 := VVisit(Visit(1, 1, false), v0);
    var v2 := VVisit(Visit(2, 2, true), v1);
    Visits(m);
    Visits(v0);
    Visits(v1);
    LastVisit(v2);
    var p1 := PVisit(Visit(1, 1, false), PVisit(Visit(0, 3, false), m));
    Visits(p1);
    LastVisit(PVisit(Visit(2, 2, true), p1));
  }

  /** Every premise of AllocationPreservesMeaning holds but one: register 1, which the handler needs, is not kept from
      the throw on. The two machines then see different values. */
  lemma ShelterIsNeeded()
    ensures var g, a := Program(), Shared();
      && g.Valid() && g.PlainConstants() == {} && Faithful(g, {}, a) && ParametersFirst(g, {}) && EntryOnce(g, a)
      && ExactHandlers(g, a) && Structured(g, Stacks()) && IsRun(g, [], Path())
      && HoldsArguments(g, Nothing, Zeros) && RunDefined(g, {}, ParameterRegisters(g), Path())
      && !ShelteredAt(g, {}, a, Stacks(), 2, 2) && !Kept(g, {}, 2, 2, 1)
      && VirtualEnd().trace != PhysicalEnd().trace
  {
    Plain();
    IsFaithful();
    Entry();
    Regions();
    WellStructured();
    Runs();
    HandlerSees();
    NotKept();
    PathDefined();
    Parameters();
    hide *;
  }

  lemma Parameters()
    ensures HoldsArguments(Program(), Nothing, Zeros) && ParameterRegisters(Program()) == {0}
  {
    assert Program().IsParameter(1);
    Special();
  }

  /** What the visits complete, and what that writes. */
  lemma Completes()
    ensures var g := Program();
      && Completed(g, Visit(0, 3, false)) == [0, 1, 2] && Completed(g, Visit(1, 1, false)) == [3]
      && Completed(g, Visit(2, 2, true)) == [4, 5] && Completed(g, Visit(3, 2, false)) == [8, 9]
      && |g.Instructions(2)| == 4 && g.Instructions(2)[2] == 6
  {
  }

  lemma Chained(known: set<int>, n: nat, code: seq<nat>)
    ensures var g := Program();
      && (Defined(g, {}, known, [n] + code) <==>
            g.Reads({}, n) <= known && Defined(g, {}, known + g.Writes(n), code))
      && WrittenBy(g, [n] + code) == g.Writes(n) + WrittenBy(g, code)
      && Defined(g, {}, known, []) && WrittenBy(g, []) == {}
  {
    hide Program;
    assert ([n] + code)[1..] == code;
  }

  lemma VisitsDefined()
    ensures var g := Program();
      && VisitDefined(g, {}, {0}, Visit(0, 3, false)) && WrittenBy(g, [0, 1, 2]) == {0, 1}
      && VisitDefined(g, {}, {0, 1}, Visit(1, 1, false)) && WrittenBy(g, [3]) == {}
      && VisitDefined(g, {}, {0, 1}, Visit(2, 2, true)) && WrittenBy(g, [4, 5]) == {2}
      && VisitDefined(g, {}, {0, 1, 2}, Visit(3, 2, false))
  {
    Completes();
    Reading();
    Writing();
    hide Program, Defined, WrittenBy;
    assert [0, 1, 2] == [0] + ([1] + ([2] + [])) && [3] == [3] + [] && [4, 5] == [4] + ([5] + []);
    assert [8, 9] == [8] + ([9] + []);
    Chained({0}, 0, [1] + ([2] + []));
    Chained({0}, 1, [2] + []);
    Chained({0}, 2, []);
    Chained({0, 1}, 3, []);
    Chained({0, 1}, 4, [5] + []);
    Chained({0, 1}, 5, []);
    Chained({0, 1, 2}, 8, [9] + []);
    Chained({0, 1, 2}, 9, []);
    assert {0} + {1} == {0, 1} && {0} + {} == {0} && {0} + {0} == {0} && {0, 1} + {} == {0, 1};
    assert {0, 1, 2} + {} == {0, 1, 2} && {0, 1} + {2} == {0, 1, 2} && {} + {2} == {2};
  }

  lemma PathDefined()
    ensures RunDefined(Program(), {}, {0}, Path())
  {
    VisitsDefined();
    Completes();
    hide Program, VisitDefined, WrittenBy, Completed;
    var x0, x1, x2, x3 := Visit(0, 3, false), Visit(1, 1, false), Visit(2, 2, true), Visit(3, 2, false);
    var g := Program();
    assert {0} + {0, 1} == {0, 1} && {0, 1} + {} == {0, 1} && {0, 1} + {2} == {0, 1, 2};
    assert RunDefined(g, {}, {0, 1, 2}, [x3]);
    assert [x2, x3][1..] == [x3] && [x1, x2, x3][1..] == [x2, x3] && [x0, x1, x2, x3][1..] == [x1, x2, x3];
    assert RunDefined(g, {}, {0, 1}, [x2, x3]);
    assert RunDefined(g, {}, {0, 1}, [x1, x2, x3]);
  }

  lemma NotKept()
    ensures !Kept(Program(), {}, 2, 2, 1) && !ShelteredAt(Program(), {}, Shared(), Stacks(), 2, 2)
  {
    Reading();
    Writing();
    Heads();
    assert !Kept(Program(), {}, 2, 3, 1);
    assert 1 in Shared().liveIn[3];
  }
}
