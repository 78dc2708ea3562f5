/** Runs that use no register before it has a value: exactly they do not depend on what the other registers hold. */
module DefinedRuns {
  import opened AllocatorIR

  /** What the instructions `code` write. */
  function WrittenBy<V>(g: Graph<V>, code: seq<nat>): set<int> {
    if code == [] then {} else g.Writes(code[0]) + WrittenBy(g, code[1..])
  }

  /** Every instruction of `code` reads only what is in `known` or was written before. */
  predicate Defined<V>(g: Graph<V>, consts: set<int>, known: set<int>, code: seq<nat>)
    decreases |code|
  {
    code == [] ||
    (g.Reads(consts, code[0]) <= known && Defined(g, consts, known + g.Writes(code[0]), code[1..]))
  }

  /** The instructions that the visit completes. */
  function Completed<V>(g: Graph<V>, x: Visit): seq<nat> {
    if x.upTo <= |g.Instructions(x.block)| then g.Instructions(x.block)[..x.upTo] else []
  }

  /** The instruction that throws, too, reads only what has a value. */
  predicate VisitDefined<V>(g: Graph<V>, consts: set<int>, known: set<int>, x: Visit) {
    && Defined(g, consts, known, Completed(g, x))
    && (x.throws && x.upTo < |g.Instructions(x.block)| ==>
          g.Reads(consts, g.Instructions(x.block)[x.upTo]) <= known + WrittenBy(g, Completed(g, x)))
  }

  /** The run reads no register that is neither in `known` nor was written earlier in the run. */
  predicate RunDefined<V>(g: Graph<V>, consts: set<int>, known: set<int>, path: seq<Visit>)
    decreases |path|
  {
    path == [] ||
    (VisitDefined(g, consts, known, path[0]) &&
     RunDefined(g, consts, known + WrittenBy(g, Completed(g, path[0])), path[1..]))
  }

  /** Same world, same observations, and the same values in the registers `known`. */
  ghost predicate Alike<V, W>(known: set<int>, m: Machine<V, W>, m': Machine<V, W>) {
    m.world == m'.world && m.trace == m'.trace && forall r :: r in known ==> m.regs(r) == m'.regs(r)
  }

  lemma OperandsAlike<V>(g: Graph<V>, consts: set<int>, n: nat, regs: int -> V, regs': int -> V)
    requires g.Valid() && n < |g.nodes| && forall r :: r in g.Reads(consts, n) ==> regs(r) == regs'(r)
    ensures Operands(g, consts, r => r, regs, n) == Operands(g, consts, r => r, regs', n)
  {
    forall i | 0 <= i < |g.nodes[n].inputs|
      ensures OperandOf(g, consts, r => r, regs, g.nodes[n].inputs[i]) ==
        OperandOf(g, consts, r => r, regs', g.nodes[n].inputs[i])
    {
      var s := g.nodes[n].inputs[i];
      if g.nodes[s].vreg != NO_REG && g.nodes[s].vreg !in consts {
        assert g.nodes[s].vreg in g.Reads(consts, n);
      }
    }
  }

  lemma {:induction false} BlockAlike<V, W>(g: Graph<V>, consts: set<int>, sem: Semantics<V, W>, args: nat -> V,
                                            known: set<int>, code: seq<nat>, m: Machine<V, W>, m': Machine<V, W>)
    requires g.Valid() && (forall k :: 0 <= k < |code| ==> code[k] < |g.nodes|)
    requires Defined(g, consts, known, code) && Alike(known, m, m')
    ensures Alike(known + WrittenBy(g, code), VirtualBlock(g, consts, sem, args, code, m),
                  VirtualBlock(g, consts, sem, args, code, m'))
    decreases |code|
  {
    if code != [] {
      OperandsAlike(g, consts, code[0], m.regs, m'.regs);
      var next, next' :=
        VirtualStep(g, consts, sem, args, code[0], m), VirtualStep(g, consts, sem, args, code[0], m');
      hide Operands, Result;
      BlockAlike(g, consts, sem, args, known + g.Writes(code[0]), code[1..], next, next');
      assert known + g.Writes(code[0]) + WrittenBy(g, code[1..]) == known + WrittenBy(g, code);
    }
  }

  lemma NothingCompleted<V>(g: Graph<V>, consts: set<int>, known: set<int>)
    ensures WrittenBy(g, []) == {} && Defined(g, consts, known, [])
  {
  }

  lemma VisitAlike<V, W>(g: Graph<V>, consts: set<int>, sem: Semantics<V, W>, args: nat -> V, known: set<int>,
                         x: Visit, m: Machine<V, W>, m': Machine<V, W>)
    requires g.Valid() && VisitDefined(g, consts, known, x) && Alike(known, m, m')
    ensures Alike(known + WrittenBy(g, Completed(g, x)), VirtualVisit(g, consts, sem, args, x, m),
                  VirtualVisit(g, consts, sem, args, x, m'))
  {
    hide VirtualBlock, WrittenBy, Defined, Result, Operands;
    var code := g.Instructions(x.block);
    if x.upTo <= |code| {
      BlockAlike(g, consts, sem, args, known, Completed(g, x), m, m');
      if x.throws && x.upTo < |code| {
        OperandsAlike(g, consts, code[x.upTo], VirtualBlock(g, consts, sem, args, code[..x.upTo], m).regs,
          VirtualBlock(g, consts, sem, args, code[..x.upTo], m').regs);
      }
    } else {
      NothingCompleted(g, consts, known);
    }
  }

  /** A run that uses nothing undefined does not see what the registers outside of `known` hold. */
  lemma {:induction false} RunAlike<V, W>(g: Graph<V>, consts: set<int>, sem: Semantics<V, W>, args: nat -> V,
                                          known: set<int>, path: seq<Visit>, m: Machine<V, W>, m': Machine<V, W>)
    requires g.Valid() && RunDefined(g, consts, known, path) && Alike(known, m, m')
    ensures VirtualRun(g, consts, sem, args, path, m).trace == VirtualRun(g, consts, sem, args, path, m').trace
    ensures VirtualRun(g, consts, sem, args, path, m).world == VirtualRun(g, consts, sem, args, path, m').world
    decreases |path|
  {
    hide VisitDefined, VirtualVisit;
    if path != [] {
      VisitAlike(g, consts, sem, args, known, path[0], m, m');
      RunAlike(g, consts, sem, args, known + WrittenBy(g, Completed(g, path[0])), path[1..],
        VirtualVisit(g, consts, sem, args, path[0], m), VirtualVisit(g, consts, sem, args, path[0], m'));
    }
  }

  // ----- The converse -----

  /** Alike on `known`; everywhere else `m` holds `x` and `m'` holds `y`. */
  ghost predicate Split<V, W>(known: set<int>, x: V, y: V, m: Machine<V, W>, m': Machine<V, W>) {
    Alike(known, m, m') && forall r :: r !in known ==> m.regs(r) == x && m'.regs(r) == y
  }

  /** As many observations, but not the same ones. */
  ghost predicate Apart<V, W>(m: Machine<V, W>, m': Machine<V, W>) {
    |m.trace| == |m'.trace| && m.trace != m'.trace
  }

  lemma OperandsSplit<V, W>(g: Graph<V>, consts: set<int>, known: set<int>, n: nat, x: V, y: V, m: Machine<V, W>,
                            m': Machine<V, W>)
    requires g.Valid() && n < |g.nodes| && x != y && Split(known, x, y, m, m') && !(g.Reads(consts, n) <= known)
    ensures Operands(g, consts, r => r, m.regs, n) != Operands(g, consts, r => r, m'.regs, n)
  {
    var r :| r in g.Reads(consts, n) && r !in known;
    var i :| 0 <= i < |g.nodes[n].inputs| && g.nodes[g.nodes[n].inputs[i]].vreg == r;
    assert Operands(g, consts, r => r, m.regs, n)[i] == Given(x);
    assert Operands(g, consts, r => r, m'.regs, n)[i] == Given(y);
  }

  lemma {:induction false} BlockGrows<V, W>(g: Graph<V>, consts: set<int>, sem: Semantics<V, W>, args: nat -> V,
                                            code: seq<nat>, m: Machine<V, W>)
    ensures var t := VirtualBlock(g, consts, sem, args, code, m).trace;
      |t| == |m.trace| + |code| && t[..|m.trace|] == m.trace
    decreases |code|
  {
    if code != [] {
      hide Operands, Result;
      BlockGrows(g, consts, sem, args, code[1..], VirtualStep(g, consts, sem, args, code[0], m));
    }
  }

  lemma BlockApart<V, W>(g: Graph<V>, consts: set<int>, sem: Semantics<V, W>, args: nat -> V, code: seq<nat>,
                         m: Machine<V, W>, m': Machine<V, W>)
    requires Apart(m, m')
    ensures Apart(VirtualBlock(g, consts, sem, args, code, m), VirtualBlock(g, consts, sem, args, code, m'))
  {
    hide VirtualBlock;
    BlockGrows(g, consts, sem, args, code, m);
    BlockGrows(g, consts, sem, args, code, m');
  }

  /** Up to the first undefined use the machines stay alike; it tells them apart. */
  lemma {:induction false} BlockSplit<V, W>(g: Graph<V>, consts: set<int>, sem: Semantics<V, W>, args: nat -> V,
                                            known: set<int>, code: seq<nat>, x: V, y: V, m: Machine<V, W>,
                                            m': Machine<V, W>)
    requires g.Valid() && (forall k :: 0 <= k < |code| ==> code[k] < |g.nodes|) && x != y && Split(known, x, y, m, m')
    ensures var e, e' := VirtualBlock(g, consts, sem, args, code, m), VirtualBlock(g, consts, sem, args, code, m');
      if Defined(g, consts, known, code) then Split(known + WrittenBy(g, code), x, y, e, e') else Apart(e, e')
    decreases |code|
  {
    if code != [] {
      var next, next' :=
        VirtualStep(g, consts, sem, args, code[0], m), VirtualStep(g, consts, sem, args, code[0], m');
      if g.Reads(consts, code[0]) <= known {
        OperandsAlike(g, consts, code[0], m.regs, m'.regs);
        hide Operands, Result;
        BlockSplit(g, consts, sem, args, known + g.Writes(code[0]), code[1..], x, y, next, next');
        assert known + g.Writes(code[0]) + WrittenBy(g, code[1..]) == known + WrittenBy(g, code);
      } else {
        OperandsSplit(g, consts, known, code[0], x, y, m, m');
        hide Operands, Result;
        assert next.trace[|m.trace|] != next'.trace[|m.trace|];
        BlockApart(g, consts, sem, args, code[1..], next, next');
      }
    }
  }

  lemma ThrowApart<V, W>(g: Graph<V>, consts: set<int>, sem: Semantics<V, W>, args: nat -> V, n: nat,
                         m: Machine<V, W>, m': Machine<V, W>)
    requires Apart(m, m')
    ensures Apart(ThrowStep(g, consts, sem, args, r => r, n, m), ThrowStep(g, consts, sem, args, r => r, n, m'))
  {
    hide Result, Operands;
    var e, e' := ThrowStep(g, consts, sem, args, r => r, n, m), ThrowStep(g, consts, sem, args, r => r, n, m');
    assert e.trace[..|m.trace|] == m.trace && e'.trace[..|m'.trace|] == m'.trace;
  }

  lemma VisitSplit<V, W>(g: Graph<V>, consts: set<int>, sem: Semantics<V, W>, args: nat -> V, known: set<int>,
                         at: Visit, x: V, y: V, m: Machine<V, W>, m': Machine<V, W>)
    requires g.Valid() && x != y && Split(known, x, y, m, m')
    ensures var e, e' := VirtualVisit(g, consts, sem, args, at, m), VirtualVisit(g, consts, sem, args, at, m');
      if VisitDefined(g, consts, known, at) then Split(known + WrittenBy(g, Completed(g, at)), x, y, e, e')
      else Apart(e, e')
  {
    hide VirtualBlock, WrittenBy, Defined, Result, Operands;
    var code := g.Instructions(at.block);
    if at.upTo <= |code| {
      BlockSplit(g, consts, sem, args, known, Completed(g, at), x, y, m, m');
      var e, e' := VirtualBlock(g, consts, sem, args, code[..at.upTo], m),
        VirtualBlock(g, consts, sem, args, code[..at.upTo], m');
      if at.throws && at.upTo < |code| && !Defined(g, consts, known, Completed(g, at)) {
        ThrowApart(g, consts, sem, args, code[at.upTo], e, e');
      } else if at.throws && at.upTo < |code| {
        var now := known + WrittenBy(g, Completed(g, at));
        if g.Reads(consts, code[at.upTo]) <= now {
          OperandsAlike(g, consts, code[at.upTo], e.regs, e'.regs);
        } else {
          OperandsSplit(g, consts, now, code[at.upTo], x, y, e, e');
          assert VirtualVisit(g, consts, sem, args, at, m).trace[|e.trace|] !=
            VirtualVisit(g, consts, sem, args, at, m').trace[|e.trace|];
        }
      }
    } else {
      NothingCompleted(g, consts, known);
    }
  }

  lemma VisitApart<V, W>(g: Graph<V>, consts: set<int>, sem: Semantics<V, W>, args: nat -> V, at: Visit,
                         m: Machine<V, W>, m': Machine<V, W>)
    requires Apart(m, m')
    ensures Apart(VirtualVisit(g, consts, sem, args, at, m), VirtualVisit(g, consts, sem, args, at, m'))
  {
    hide VirtualBlock, Result, Operands;
    var code := g.Instructions(at.block);
    if at.upTo <= |code| {
      BlockApart(g, consts, sem, args, code[..at.upTo], m, m');
      var e, e' := VirtualBlock(g, consts, sem, args, code[..at.upTo], m),
        VirtualBlock(g, consts, sem, args, code[..at.upTo], m');
      if at.throws && at.upTo < |code| { ThrowApart(g, consts, sem, args, code[at.upTo], e, e'); }
    }
  }

  lemma {:induction false} RunApart<V, W>(g: Graph<V>, consts: set<int>, sem: Semantics<V, W>, args: nat -> V,
                                          path: seq<Visit>, m: Machine<V, W>, m': Machine<V, W>)
    requires Apart(m, m')
    ensures Apart(VirtualRun(g, consts, sem, args, path, m), VirtualRun(g, consts, sem, args, path, m'))
    decreases |path|
  {
    hide VirtualVisit;
    if path != [] {
      VisitApart(g, consts, sem, args, path[0], m, m');
      RunApart(g, consts, sem, args, path[1..],
        VirtualVisit(g, consts, sem, args, path[0], m), VirtualVisit(g, consts, sem, args, path[0], m'));
    }
  }

  /** An undefined use shows in the observations. */
  lemma {:induction false} RunSplit<V, W>(g: Graph<V>, consts: set<int>, sem: Semantics<V, W>, args: nat -> V,
                                          known: set<int>, path: seq<Visit>, x: V, y: V, m: Machine<V, W>,
                                          m': Machine<V, W>)
    requires g.Valid() && x != y && Split(known, x, y, m, m') && !RunDefined(g, consts, known, path)
    ensures Apart(VirtualRun(g, consts, sem, args, path, m), VirtualRun(g, consts, sem, args, path, m'))
    decreases |path|
  {
    hide VisitDefined, VirtualVisit;
    VisitSplit(g, consts, sem, args, known, path[0], x, y, m, m');
    var e, e' := VirtualVisit(g, consts, sem, args, path[0], m), VirtualVisit(g, consts, sem, args, path[0], m');
    if VisitDefined(g, consts, known, path[0]) {
      RunSplit(g, consts, sem, args, known + WrittenBy(g, Completed(g, path[0])), path[1..], x, y, e, e');
    } else {
      RunApart(g, consts, sem, args, path[1..], e, e');
    }
  }

  /** What the run observes is the same whatever the registers outside of `known` hold. */
  ghost predicate Independent<V(!new), W>(g: Graph<V>, consts: set<int>, sem: Semantics<V, W>, args: nat -> V,
                                          known: set<int>, path: seq<Visit>, w: W)
  {
    forall regs: int -> V, regs': int -> V :: (forall r :: r in known ==> regs(r) == regs'(r)) ==>
      VirtualRun(g, consts, sem, args, path, Machine(regs, w, [])).trace ==
        VirtualRun(g, consts, sem, args, path, Machine(regs', w, [])).trace
  }

  /** Exactly the runs that use nothing undefined are independent of the other registers. */
  lemma DefinedExactly<V(!new), W>(g: Graph<V>, consts: set<int>, sem: Semantics<V, W>, args: nat -> V,
                                   known: set<int>, path: seq<Visit>, w: W, x: V, y: V)
    requires g.Valid() && x != y
    ensures Independent(g, consts, sem, args, known, path, w) <==> RunDefined(g, consts, known, path)
  {
    hide VirtualRun, RunDefined;
    if RunDefined(g, consts, known, path) {
      forall regs: int -> V, regs': int -> V | forall r :: r in known ==> regs(r) == regs'(r)
        ensures VirtualRun(g, consts, sem, args, path, Machine(regs, w, [])).trace ==
          VirtualRun(g, consts, sem, args, path, Machine(regs', w, [])).trace
      {
        RunAlike(g, consts, sem, args, known, path, Machine(regs, w, []), Machine(regs', w, []));
      }
    } else {
      var regs: int -> V, regs': int -> V := _ => x, r => if r in known then x else y;
      RunSplit(g, consts, sem, args, known, path, x, y, Machine(regs, w, []), Machine(regs', w, []));
    }
  }
}
