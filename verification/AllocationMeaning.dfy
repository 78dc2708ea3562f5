/** Running the allocated code means what running the virtual code means. */
module AllocationMeaning {
  import opened AllocatorIR
  import opened Liveness
  import opened Interference
  import opened RegisterAllocator
  import opened HandlerStacks
  import opened DefinedRuns

  function Place(color: seq<int>): int -> int {
    r => if 0 <= r < |color| then color[r] else -1
  }

  /** Same world, same observations, and every live register holds its value at its location. */
  ghost predicate Agree<V, W>(color: seq<int>, live: set<int>, v: Machine<V, W>, p: Machine<V, W>) {
    v.world == p.world && v.trace == p.trace && forall r :: r in live ==> v.regs(r) == p.regs(Place(color)(r))
  }

  /** The arguments lie in the slots of the parameters. */
  ghost predicate ArgumentsInPlace<V, W>(g: Graph<V>, args: nat -> V, p: Machine<V, W>) {
    forall n :: 0 <= n < |g.nodes| && g.IsParameter(n) ==> p.regs(g.nodes[n].payload) == args(g.nodes[n].payload)
  }

  /** Up to instruction `k`, the entry block only picks up parameters and pool constants. */
  predicate QuietUpTo<V>(g: Graph<V>, consts: set<int>, k: nat) {
    forall i :: 0 <= i < k && i < |g.Instructions(0)| ==> Quiet(g, consts, g.Instructions(0)[i])
  }

  predicate Quiet<V>(g: Graph<V>, consts: set<int>, n: nat) {
    n < |g.nodes| && (g.nodes[n].op.Parameter? || g.nodes[n].vreg == NO_REG || g.nodes[n].vreg in consts)
  }

  /** Parameters are picked up at the very start of the entry block, before anything else is written. */
  ghost predicate ParametersFirst<V>(g: Graph<V>, consts: set<int>) {
    forall b: nat, k: nat {:trigger g.IsParameter(g.Instructions(b)[k])} ::
      b < |g.blocks| && k < |g.Instructions(b)| && g.IsParameter(g.Instructions(b)[k]) ==>
      b == 0 && QuietUpTo(g, consts, k)
  }

  // ----- One instruction -----

  lemma OperandsAgree<V, W>(g: Graph<V>, consts: set<int>, color: seq<int>, n: nat, v: Machine<V, W>, p: Machine<V, W>)
    requires g.Valid() && n < |g.nodes|
    requires Agree(color, g.Reads(consts, n), v, p)
    ensures Operands(g, consts, r => r, v.regs, n) == Operands(g, consts, Place(color), p.regs, n)
  {
    forall i | 0 <= i < |g.nodes[n].inputs|
      ensures OperandOf(g, consts, r => r, v.regs, g.nodes[n].inputs[i]) ==
        OperandOf(g, consts, Place(color), p.regs, g.nodes[n].inputs[i])
    {
      var s := g.nodes[n].inputs[i];
      if g.nodes[s].vreg != NO_REG && g.nodes[s].vreg !in consts {
        assert g.nodes[s].vreg in g.Reads(consts, n);
      }
    }
  }

  /** A step keeps the agreement on what is live behind it. */
  lemma StepAgrees<V, W>(g: Graph<V>, consts: set<int>, a: Allocation, sem: Semantics<V, W>, args: nat -> V,
                         b: nat, k: nat, v: Machine<V, W>, p: Machine<V, W>)
    requires g.Valid() && consts == g.PlainConstants() && Faithful(g, consts, a)
    requires b < |g.blocks| && k < |g.Instructions(b)|
    requires Agree(a.color, LiveBefore(g, consts, b, k, a.liveOut[b]), v, p)
    requires g.IsParameter(g.Instructions(b)[k]) ==> ArgumentsInPlace(g, args, p)
    ensures Agree(a.color, LiveBefore(g, consts, b, k + 1, a.liveOut[b]),
                  VirtualStep(g, consts, sem, args, g.Instructions(b)[k], v),
                  PhysicalStep(g, consts, sem, args, Place(a.color), g.Instructions(b)[k], p))
  {
    var n := g.Instructions(b)[k];
    var d := g.nodes[n].vreg;
    var behind := LiveBefore(g, consts, b, k + 1, a.liveOut[b]);
    OperandsAgree(g, consts, a.color, n, v, p);
    var v', p' := VirtualStep(g, consts, sem, args, n, v), PhysicalStep(g, consts, sem, args, Place(a.color), n, p);
    forall r | r in behind ensures v'.regs(r) == p'.regs(Place(a.color)(r)) {
      LiveOccurs(g, consts, a, b, k + 1, r);
      if d == NO_REG || d in consts {
        assert r in LiveBefore(g, consts, b, k, a.liveOut[b]);
      } else {
        assert Mentions(g, consts, n, d);
        assert Occurs(g, consts, d);
        if r != d {
          assert r in LiveBefore(g, consts, b, k, a.liveOut[b]);
          OthersSurvive(g, consts, a, sem, args, b, k, v, p, r);
        }
      }
    }
  }

  /** Writing `d` leaves every other live register alone, or gives it the value it already has. */
  lemma OthersSurvive<V, W>(g: Graph<V>, consts: set<int>, a: Allocation, sem: Semantics<V, W>, args: nat -> V,
                            b: nat, k: nat, v: Machine<V, W>, p: Machine<V, W>, r: int)
    requires g.Valid() && consts == g.PlainConstants() && Faithful(g, consts, a)
    requires b < |g.blocks| && k < |g.Instructions(b)|
    requires var n := g.Instructions(b)[k];
      && g.nodes[n].vreg != NO_REG && g.nodes[n].vreg !in consts && r != g.nodes[n].vreg
      && Operands(g, consts, x => x, v.regs, n) == Operands(g, consts, Place(a.color), p.regs, n)
      && Occurs(g, consts, g.nodes[n].vreg) && Occurs(g, consts, r) && 0 <= r < |a.color|
    requires r in LiveBefore(g, consts, b, k + 1, a.liveOut[b])
    requires v.regs(r) == p.regs(Place(a.color)(r))
    ensures var n := g.Instructions(b)[k];
      VirtualStep(g, consts, sem, args, n, v).regs(r) ==
        PhysicalStep(g, consts, sem, args, Place(a.color), n, p).regs(Place(a.color)(r))
  {
    hide Operands, LiveBefore, ClashesApart, UsesUpTo, DefsUpTo;
    var n := g.Instructions(b)[k];
    var d := g.nodes[n].vreg;
    if r == g.MoveSource(n) {
      MoveCopies(g, consts, sem, args, Place(a.color), n, p);
    } else {
      assert ClashAt(g, consts, b, k, a.liveOut[b], d, r);
      OccursPlaced(g, consts, a, d);
      ClashesHere(g, consts, a, b, k, d, r);
    }
  }

  lemma ClashesHere<V>(g: Graph<V>, consts: set<int>, a: Allocation, b: nat, k: nat, d: int, r: int)
    requires Faithful(g, consts, a) && b < |g.blocks| && ClashAt(g, consts, b, k, a.liveOut[b], d, r)
    requires 0 <= d < |a.color| && 0 <= r < |a.color| && Occurs(g, consts, d) && Occurs(g, consts, r)
    ensures a.color[d] != a.color[r]
  {
    hide LiveBefore, UsesUpTo, DefsUpTo;
    assert BlockClash(g, consts, b, 0, a.liveOut[b], d, r);
    assert Clash(g, consts, a.liveOut, d, r);
  }

  /** After a Move, its source's location still holds the source's value, even when both share it. */
  lemma MoveCopies<V, W>(g: Graph<V>, consts: set<int>, sem: Semantics<V, W>, args: nat -> V, place: int -> int, n: nat,
                         p: Machine<V, W>)
    requires g.Valid() && n < |g.nodes| && g.MoveSource(n) != NO_REG && g.MoveSource(n) !in consts
    ensures PhysicalStep(g, consts, sem, args, place, n, p).regs(place(g.MoveSource(n))) ==
      p.regs(place(g.MoveSource(n)))
  {
    var operands := Operands(g, consts, place, p.regs, n);
    assert operands[0] == OperandOf(g, consts, place, p.regs, g.nodes[n].inputs[0]);
  }

  /** Live registers occur in the code, so they are no pool constants and have a location. */
  lemma {:induction false} LiveOccurs<V>(g: Graph<V>, consts: set<int>, a: Allocation, b: nat, k: nat, r: int)
    requires g.Valid() && Faithful(g, consts, a) && b < |g.blocks| && k <= |g.Instructions(b)|
    requires r in LiveBefore(g, consts, b, k, a.liveOut[b])
    ensures Occurs(g, consts, r) && 0 <= r < |a.color| && a.color[r] >= 0
    decreases |g.Instructions(b)| - k
  {
    hide ClashesApart, UsesUpTo, DefsUpTo;
    if k == |g.Instructions(b)| {
      assert r in a.liveOut[b];
    } else if r in g.Reads(consts, g.Instructions(b)[k]) {
      assert Mentions(g, consts, g.blocks[b].instructions[k], r);
      assert Occurs(g, consts, r);
    } else {
      LiveOccurs(g, consts, a, b, k + 1, r);
    }
    OccursPlaced(g, consts, a, r);
  }

  lemma OccursPlaced<V>(g: Graph<V>, consts: set<int>, a: Allocation, r: int)
    requires g.Valid() && Placed(g, consts, a.color) && Occurs(g, consts, r)
    ensures 0 <= r < |a.color| && a.color[r] >= 0
  {
    var b, k :| 0 <= b < |g.blocks| && 0 <= k < |g.blocks[b].instructions| &&
      Mentions(g, consts, g.blocks[b].instructions[k], r);
  }

  // ----- A stretch of a block -----

  /** Until the entry block stops being quiet, the arguments stay where the caller put them. */
  ghost predicate EntryIntact<V, W>(g: Graph<V>, consts: set<int>, args: nat -> V, b: nat, k: nat, p: Machine<V, W>) {
    b == 0 && QuietUpTo(g, consts, k) ==> ArgumentsInPlace(g, args, p)
  }

  lemma QuietKeepsArguments<V, W>(g: Graph<V>, consts: set<int>, sem: Semantics<V, W>, args: nat -> V,
                                  place: int -> int, b: nat, k: nat, p: Machine<V, W>)
    requires k < |g.Instructions(b)| && EntryIntact(g, consts, args, b, k, p)
    ensures EntryIntact(g, consts, args, b, k + 1, PhysicalStep(g, consts, sem, args, place, g.Instructions(b)[k], p))
  {
    if b == 0 && QuietUpTo(g, consts, k + 1) {
      assert QuietUpTo(g, consts, k);
      assert Quiet(g, consts, g.Instructions(0)[k]);
    }
  }

  /** Running instructions `k..m` of a block keeps the agreement on what is live. */
  lemma {:induction false} StretchAgrees<V, W>(g: Graph<V>, consts: set<int>, a: Allocation, sem: Semantics<V, W>,
                                               args: nat -> V,
                                               b: nat, k: nat, m: nat, v: Machine<V, W>, p: Machine<V, W>)
    requires g.Valid() && consts == g.PlainConstants() && Faithful(g, consts, a) && ParametersFirst(g, consts)
    requires b < |g.blocks| && k <= m <= |g.Instructions(b)|
    requires Agree(a.color, LiveBefore(g, consts, b, k, a.liveOut[b]), v, p) && EntryIntact(g, consts, args, b, k, p)
    ensures Agree(a.color, LiveBefore(g, consts, b, m, a.liveOut[b]),
                  VirtualBlock(g, consts, sem, args, g.Instructions(b)[k..m], v),
                  PhysicalBlock(g, consts, sem, args, Place(a.color), g.Instructions(b)[k..m], p))
    decreases m - k
  {
    hide LiveBefore, Faithful, VirtualStep, PhysicalStep, Agree;
    var code := g.Instructions(b)[k..m];
    if k < m {
      var n := g.Instructions(b)[k];
      assert code[0] == n && code[1..] == g.Instructions(b)[k + 1..m];
      if g.IsParameter(n) {
        assert b == 0 && QuietUpTo(g, consts, k);
      }
      StepAgrees(g, consts, a, sem, args, b, k, v, p);
      QuietKeepsArguments(g, consts, sem, args, Place(a.color), b, k, p);
      StretchAgrees(g, consts, a, sem, args, b, k + 1, m,
        VirtualStep(g, consts, sem, args, n, v), PhysicalStep(g, consts, sem, args, Place(a.color), n, p));
    }
  }

  /** The backward walk over a block never asks for more than the block's live-in set. */
  lemma {:induction false} WalkWithinLiveIn<V>(g: Graph<V>, consts: set<int>, b: nat, k: nat, out: set<int>)
    requires k <= |g.Instructions(b)|
    ensures LiveBefore(g, consts, b, k, out) - DefsUpTo(g, consts, b, k) <=
      Use(g, consts, b) + (out - Def(g, consts, b))
    decreases |g.Instructions(b)| - k
  {
    var code := g.Instructions(b);
    if k < |code| {
      WalkWithinLiveIn(g, consts, b, k + 1, out);
      ScanGrows(g, consts, b, k + 1, |code|);
      var after := UsesUpTo(g, consts, b, k + 1);
      forall x | x in LiveBefore(g, consts, b, k, out) - DefsUpTo(g, consts, b, k)
        ensures x in Use(g, consts, b) + (out - Def(g, consts, b))
      {
        if x in g.Reads(consts, code[k]) {
          assert x in after;
        } else {
          assert x in LiveBefore(g, consts, b, k + 1, out) - DefsUpTo(g, consts, b, k + 1);
        }
      }
    }
  }

  // ----- What survives to a throw -----

  /** From instruction `k` on, the block reads `r` before it writes it, or never writes it. */
  predicate Kept<V>(g: Graph<V>, consts: set<int>, b: nat, k: nat, r: int)
    requires k <= |g.Instructions(b)|
    decreases |g.Instructions(b)| - k
  {
    var code := g.Instructions(b);
    k == |code| || r in g.Reads(consts, code[k]) || (r !in g.Writes(code[k]) && Kept(g, consts, b, k + 1, r))
  }

  predicate AllKept<V>(g: Graph<V>, consts: set<int>, b: nat, k: nat, live: set<int>)
    requires k <= |g.Instructions(b)|
  {
    forall r :: r in live ==> Kept(g, consts, b, k, r)
  }

  /** Of the registers that are live at the end of a block, exactly those that are kept are live at instruction `k`. */
  lemma {:induction false} LiveExactlyKept<V>(g: Graph<V>, consts: set<int>, b: nat, k: nat, out: set<int>, r: int)
    requires k <= |g.Instructions(b)| && r in out
    ensures r in LiveBefore(g, consts, b, k, out) <==> Kept(g, consts, b, k, r)
    decreases |g.Instructions(b)| - k
  {
    if k < |g.Instructions(b)| {
      LiveExactlyKept(g, consts, b, k + 1, out, r);
    }
  }

  /** The allocator keeps what handler `h` needs live at a throw exactly when the rest of the block keeps it. */
  lemma LiveAtThrowExactly<V>(g: Graph<V>, consts: set<int>, a: Allocation, b: nat, k: nat, h: nat)
    requires Faithful(g, consts, a) && b < |g.blocks| && h < |g.blocks| && h in a.extra[b] && k <= |g.Instructions(b)|
    ensures a.liveIn[h] <= LiveBefore(g, consts, b, k, a.liveOut[b]) <==> AllKept(g, consts, b, k, a.liveIn[h])
  {
    hide LiveBefore, Kept;
    assert Flows(g, a.extra, b, h);
    forall r | r in a.liveIn[h] ensures r in LiveBefore(g, consts, b, k, a.liveOut[b]) <==> Kept(g, consts, b, k, r) {
      LiveExactlyKept(g, consts, b, k, a.liveOut[b], r);
    }
    if AllKept(g, consts, b, k, a.liveIn[h]) {
      forall r | r in a.liveIn[h] ensures r in LiveBefore(g, consts, b, k, a.liveOut[b]) { }
    }
  }

  // ----- Whole runs -----

  /** What an active handler needs is not rewritten, before it is read again, in the block that may throw. */
  ghost predicate Sheltered<V>(g: Graph<V>, consts: set<int>, a: Allocation, typed: seq<seq<nat>>) {
    |typed| == |g.blocks| && forall b: nat, k: nat :: b < |g.blocks| && k < |g.Instructions(b)| ==>
      ShelteredAt(g, consts, a, typed, b, k)
  }

  ghost predicate ShelteredAt<V>(g: Graph<V>, consts: set<int>, a: Allocation, typed: seq<seq<nat>>, b: nat, k: nat)
    requires b < |typed| && k <= |g.Instructions(b)|
  {
    var active := ActiveAt(g, typed[b], b, k);
    active != [] && active[|active| - 1] < |a.liveIn| ==> AllKept(g, consts, b, k, a.liveIn[active[|active| - 1]])
  }

  /** The handlers of a block are those of the try regions it lies in. */
  ghost predicate ExactHandlers<V>(g: Graph<V>, a: Allocation) {
    |a.extra| == |g.blocks| && forall c, h: nat :: 0 <= c < |g.blocks| ==> (h in a.extra[c] <==> Guards(g, h, c))
  }

  /** The visit `x` leads to `next`, whose needs survive in the block of `x`. */
  ghost predicate Carries<V>(g: Graph<V>, consts: set<int>, a: Allocation, stack: seq<nat>, x: Visit, next: nat) {
    && x.upTo <= |g.Instructions(x.block)| && Continues(g, stack, x, next) && next < |a.liveIn|
    && Flows(g, a.extra, x.block, next) && (x.throws ==> AllKept(g, consts, x.block, x.upTo, a.liveIn[next]))
  }

  /** One visit: agreement on the live-in set at its start gives agreement on the next block's live-in set. */
  lemma VisitAgrees<V, W>(g: Graph<V>, consts: set<int>, a: Allocation, sem: Semantics<V, W>, args: nat -> V,
                          stack: seq<nat>, x: Visit, v: Machine<V, W>, p: Machine<V, W>)
    requires g.Valid() && consts == g.PlainConstants() && Faithful(g, consts, a) && ParametersFirst(g, consts)
    requires x.block < |g.blocks| && x.upTo <= |g.Instructions(x.block)|
    requires Agree(a.color, a.liveIn[x.block], v, p) && EntryIntact(g, consts, args, x.block, 0, p)
    ensures var v', p' :=
      VirtualVisit(g, consts, sem, args, x, v), PhysicalVisit(g, consts, sem, args, Place(a.color), x, p);
      && v'.world == p'.world && v'.trace == p'.trace
      && forall next: nat :: Carries(g, consts, a, stack, x, next) ==> Agree(a.color, a.liveIn[next], v', p')
  {
    hide LiveBefore, UsesUpTo, DefsUpTo, VirtualBlock, PhysicalBlock, Result, Placed, ClashesApart, Kept;
    var b, out := x.block, a.liveOut[x.block];
    WalkWithinLiveIn(g, consts, b, 0, out);
    assert DefsUpTo(g, consts, b, 0) == {} by { NoDefsYet(g, consts, b); }
    assert LiveBefore(g, consts, b, 0, out) <= a.liveIn[b];
    StretchAgrees(g, consts, a, sem, args, b, 0, x.upTo, v, p);
    var code := g.Instructions(b);
    assert code[0..x.upTo] == code[..x.upTo];
    var v1 := VirtualBlock(g, consts, sem, args, code[..x.upTo], v);
    var p1 := PhysicalBlock(g, consts, sem, args, Place(a.color), code[..x.upTo], p);
    if x.upTo < |code| {
      ReadsAreLive(g, consts, b, x.upTo, out);
      OperandsAgree(g, consts, a.color, code[x.upTo], v1, p1);
    }
    forall next: nat | Carries(g, consts, a, stack, x, next)
      ensures forall r :: r in a.liveIn[next] ==> r in LiveBefore(g, consts, b, x.upTo, out)
    {
      assert a.liveIn[next] <= out;
      if x.throws {
        forall r | r in a.liveIn[next] ensures r in LiveBefore(g, consts, b, x.upTo, out) {
          LiveExactlyKept(g, consts, b, x.upTo, out, r);
        }
      } else {
        LiveAtTheEnd(g, consts, b, out);
      }
    }
  }

  lemma NoDefsYet<V>(g: Graph<V>, consts: set<int>, b: nat)
    ensures DefsUpTo(g, consts, b, 0) == {}
  {
  }

  lemma LiveAtTheEnd<V>(g: Graph<V>, consts: set<int>, b: nat, out: set<int>)
    ensures LiveBefore(g, consts, b, |g.Instructions(b)|, out) == out
  {
  }

  lemma ReadsAreLive<V>(g: Graph<V>, consts: set<int>, b: nat, k: nat, out: set<int>)
    requires k < |g.Instructions(b)|
    ensures g.Reads(consts, g.Instructions(b)[k]) <= LiveBefore(g, consts, b, k, out)
  {
  }

  /** In a structured program whose handlers are sheltered, every way on carries the agreement. */
  lemma RunCarries<V>(g: Graph<V>, consts: set<int>, a: Allocation, typed: seq<seq<nat>>, stack: seq<nat>, x: Visit,
                      next: nat)
    requires Faithful(g, consts, a) && ExactHandlers(g, a) && Structured(g, typed) && Sheltered(g, consts, a, typed)
    requires Entered(g, typed, stack, x.block) && x.upTo <= |g.Instructions(x.block)| && Continues(g, stack, x, next)
    ensures Carries(g, consts, a, stack, x, next)
  {
    hide Guards, Kept, Placed, ClashesApart;
    EntersNext(g, typed, stack, x, next);
    if x.throws {
      assert next in a.extra[x.block];
      assert ShelteredAt(g, consts, a, typed, x.block, x.upTo);
    }
  }

  /** Allocation preserves meaning: along every run, every instruction sees on the frame the operand values it sees
      on virtual registers, and the world evolves the same way. */
  lemma {:induction false} RunAgrees<V, W>(g: Graph<V>, consts: set<int>, a: Allocation, sem: Semantics<V, W>,
                                           args: nat -> V,
                                           typed: seq<seq<nat>>, stack: seq<nat>, path: seq<Visit>,
                                           v: Machine<V, W>, p: Machine<V, W>)
    requires g.Valid() && consts == g.PlainConstants() && Faithful(g, consts, a) && ParametersFirst(g, consts)
    requires ExactHandlers(g, a) && Structured(g, typed) && Sheltered(g, consts, a, typed)
    requires path != [] && IsRun(g, stack, path) && (forall i :: 1 <= i < |path| ==> path[i].block != 0)
    requires Entered(g, typed, stack, path[0].block)
    requires Agree(a.color, a.liveIn[path[0].block], v, p) && EntryIntact(g, consts, args, path[0].block, 0, p)
    ensures VirtualRun(g, consts, sem, args, path, v).world ==
      PhysicalRun(g, consts, sem, args, Place(a.color), path, p).world
    ensures VirtualRun(g, consts, sem, args, path, v).trace ==
      PhysicalRun(g, consts, sem, args, Place(a.color), path, p).trace
    decreases |path|
  {
    hide Faithful, VirtualVisit, PhysicalVisit, Agree, Sheltered, Structured, Entered, ExactHandlers, Continues, Next;
    VisitAgrees(g, consts, a, sem, args, stack, path[0], v, p);
    var v' := VirtualVisit(g, consts, sem, args, path[0], v);
    var p' := PhysicalVisit(g, consts, sem, args, Place(a.color), path[0], p);
    if |path| > 1 {
      EntersNext(g, typed, stack, path[0], path[1].block);
      RunCarries(g, consts, a, typed, stack, path[0], path[1].block);
      RunAgrees(g, consts, a, sem, args, typed, Next(g, stack, path[0]), path[1..], v', p');
    } else {
      assert path[1..] == [];
    }
  }

  /** The entry block is never entered again. */
  ghost predicate EntryOnce<V>(g: Graph<V>, a: Allocation) {
    && |g.blocks| > 0 && |a.liveIn| > 0
    && (forall b: nat :: b < |g.blocks| ==> !Flows(g, a.extra, b, 0))
  }

  lemma {:induction false} NeverBackToEntry<V>(g: Graph<V>, a: Allocation, typed: seq<seq<nat>>, stack: seq<nat>,
                                               path: seq<Visit>)
    requires IsRun(g, stack, path) && EntryOnce(g, a) && ExactHandlers(g, a) && Structured(g, typed)
    requires path != [] ==> Entered(g, typed, stack, path[0].block)
    ensures forall i :: 1 <= i < |path| ==> path[i].block != 0
    decreases |path|
  {
    hide Guards, Structured, Entered, Continues, Next;
    if |path| > 1 {
      var x, rest := path[0], path[1..];
      EntersNext(g, typed, stack, x, path[1].block);
      NeverBackToEntry(g, a, typed, Next(g, stack, x), rest);
      ContinuesFlows(g, a, stack, x, path[1].block);
      forall i | 1 <= i < |path| ensures path[i].block != 0 {
        if i > 1 { assert rest[i - 1].block != 0; }
      }
    }
  }

  lemma ContinuesFlows<V>(g: Graph<V>, a: Allocation, stack: seq<nat>, x: Visit, next: nat)
    requires Continues(g, stack, x, next) && ExactHandlers(g, a) && (x.throws ==> Guards(g, next, x.block))
    ensures x.block < |g.blocks| && Flows(g, a.extra, x.block, next)
  {
    hide Guards;
  }

  /** The frame, read as a file of virtual registers. */
  function Through<V>(color: seq<int>, frame: int -> V): int -> V {
    r => frame(Place(color)(r))
  }

  /** A call sees on the frame what it sees on virtual registers that start with the same values where that matters. */
  lemma {:induction false} CallAgrees<V, W>(g: Graph<V>, a: Allocation, sem: Semantics<V, W>, args: nat -> V,
                                            typed: seq<seq<nat>>, path: seq<Visit>, regs: int -> V, frame: int -> V,
                                            w: W)
    requires g.Valid() && Faithful(g, g.PlainConstants(), a) && ParametersFirst(g, g.PlainConstants())
    requires EntryOnce(g, a)
    requires ExactHandlers(g, a) && Structured(g, typed) && Sheltered(g, g.PlainConstants(), a, typed)
    requires path != [] && IsRun(g, [], path) && path[0].block == 0
    requires forall n :: 0 <= n < |g.nodes| && g.IsParameter(n) ==>
      frame(g.nodes[n].payload) == args(g.nodes[n].payload)
    requires forall r :: r in a.liveIn[0] ==> regs(r) == Through(a.color, frame)(r)
    ensures var consts, v, p := g.PlainConstants(), Machine(regs, w, []), Machine(frame, w, []);
      && VirtualRun(g, consts, sem, args, path, v).trace ==
           PhysicalRun(g, consts, sem, args, Place(a.color), path, p).trace
      && VirtualRun(g, consts, sem, args, path, v).world ==
           PhysicalRun(g, consts, sem, args, Place(a.color), path, p).world
  {
    hide Faithful, Sheltered, ExactHandlers, IsRun;
    assert Entered(g, typed, [], 0);
    NeverBackToEntry(g, a, typed, [], path);
    RunAgrees(g, g.PlainConstants(), a, sem, args, typed, [], path, Machine(regs, w, []), Machine(frame, w, []));
  }

  /** The virtual registers of the parameters. */
  ghost function ParameterRegisters<V>(g: Graph<V>): set<int> {
    set n | 0 <= n < |g.nodes| && g.IsParameter(n) :: g.nodes[n].vreg
  }

  ghost predicate HoldsArguments<V>(g: Graph<V>, args: nat -> V, regs: int -> V) {
    forall n :: 0 <= n < |g.nodes| && g.IsParameter(n) ==> regs(g.nodes[n].vreg) == args(g.nodes[n].payload)
  }

  /** Registers that are live on entry have a place. */
  lemma LiveOnEntryPlaced<V>(g: Graph<V>, consts: set<int>, a: Allocation, r: int)
    requires g.Valid() && Faithful(g, consts, a) && |g.blocks| > 0 && r in a.liveIn[0]
    ensures 0 <= r < |a.color|
  {
    hide ClashesApart;
    if r in a.liveOut[0] {
      OccursPlaced(g, consts, a, r);
    } else {
      var k := UsedAt(g, consts, 0, |g.Instructions(0)|, r);
      assert Mentions(g, consts, g.blocks[0].instructions[k], r);
      OccursPlaced(g, consts, a, r);
    }
  }

  lemma {:induction false} UsedAt<V>(g: Graph<V>, consts: set<int>, b: nat, k: nat, r: int) returns (i: nat)
    requires k <= |g.Instructions(b)| && r in UsesUpTo(g, consts, b, k)
    ensures i < k && r in g.Reads(consts, g.Instructions(b)[i]) && r !in consts
    decreases k
  {
    if r in UsesUpTo(g, consts, b, k - 1) {
      i := UsedAt(g, consts, b, k - 1, r);
    } else {
      i := k - 1;
    }
  }

  /** A parameter's place is the slot of its argument. */
  lemma ParameterThrough<V>(g: Graph<V>, consts: set<int>, a: Allocation, args: nat -> V, regs: int -> V,
                            frame: int -> V, r: int)
    requires Placed(g, consts, a.color) && 0 <= r < |a.color| && r in ParameterRegisters(g)
    requires HoldsArguments(g, args, regs)
    requires forall n :: 0 <= n < |g.nodes| && g.IsParameter(n) ==>
      frame(g.nodes[n].payload) == args(g.nodes[n].payload)
    ensures regs(r) == Through(a.color, frame)(r)
  {
    var n :| 0 <= n < |g.nodes| && g.IsParameter(n) && g.nodes[n].vreg == r;
    assert Place(a.color)(r) == g.nodes[n].payload;
    assert regs(g.nodes[n].vreg) == args(g.nodes[n].payload);
  }

  /**
   * Allocation preserves the meaning of calls. The frame holds the arguments in the parameter slots and anything
   * elsewhere; the virtual registers of the parameters hold the arguments and the others anything. In every run that
   * uses no register before it has a value, every instruction sees the same operands on both, and the world evolves
   * the same way.
   */
  lemma {:induction false} AllocationPreservesMeaning<V, W>(g: Graph<V>, a: Allocation, sem: Semantics<V, W>,
                                                            args: nat -> V, typed: seq<seq<nat>>, path: seq<Visit>,
                                                            regs: int -> V, frame: int -> V, w: W)
    requires g.Valid() && Faithful(g, g.PlainConstants(), a) && ParametersFirst(g, g.PlainConstants())
    requires EntryOnce(g, a)
    requires ExactHandlers(g, a) && Structured(g, typed) && Sheltered(g, g.PlainConstants(), a, typed)
    requires path != [] && IsRun(g, [], path) && path[0].block == 0
    requires forall n :: 0 <= n < |g.nodes| && g.IsParameter(n) ==>
      frame(g.nodes[n].payload) == args(g.nodes[n].payload)
    requires HoldsArguments(g, args, regs) && RunDefined(g, g.PlainConstants(), ParameterRegisters(g), path)
    ensures var consts, v, p := g.PlainConstants(), Machine(regs, w, []), Machine(frame, w, []);
      && VirtualRun(g, consts, sem, args, path, v).trace ==
           PhysicalRun(g, consts, sem, args, Place(a.color), path, p).trace
      && VirtualRun(g, consts, sem, args, path, v).world ==
           PhysicalRun(g, consts, sem, args, Place(a.color), path, p).world
  {
    hide RunDefined, Sheltered, ExactHandlers, IsRun, Structured, ParametersFirst, HoldsArguments;
    hide ParameterRegisters, VirtualRun, PhysicalRun, ClashesApart, FlowsLive;
    var consts, known := g.PlainConstants(), ParameterRegisters(g);
    var mixed := r => if r in known then regs(r) else Through(a.color, frame)(r);
    forall r | r in a.liveIn[0] ensures mixed(r) == Through(a.color, frame)(r) {
      LiveOnEntryPlaced(g, consts, a, r);
      if r in known { ParameterThrough(g, consts, a, args, regs, frame, r); }
    }
    CallAgrees(g, a, sem, args, typed, path, mixed, frame, w);
    RunAlike(g, consts, sem, args, known, path, Machine(regs, w, []), Machine(mixed, w, []));
  }
}
