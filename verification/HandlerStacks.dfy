/** Runs with exceptions: which handlers are active where (src/compiler/IRBuilder.cpp:2809-2815, 4016-4044,
    src/compiler/Emitter.cpp:877-881, 945-968). */
module HandlerStacks {
  import opened AllocatorIR
  import opened Liveness

  /** The handlers that are active at instruction `k` of block `b`, innermost last: a TryEnd takes one off. */
  function ActiveAt<V>(g: Graph<V>, stack: seq<nat>, b: nat, k: nat): seq<nat> {
    if k > 0 && StartsWith(g, b, TryEnd) && stack != [] then stack[..|stack| - 1] else stack
  }

  /** The handlers that are active behind block `b`: a TryBegin puts one on. */
  function Leaving<V>(g: Graph<V>, stack: seq<nat>, b: nat): seq<nat> {
    var rest := ActiveAt(g, stack, b, 1);
    var h := HandlerFrom(g, g.Succs(b));
    if StartsWith(g, b, TryBegin) && h >= 0 then rest + [h] else rest
  }

  /** Control goes from the visit `x` to the block `next`: at the end of the block along an edge that does not enter a
      handler, or by an exception into the innermost active handler. */
  predicate Continues<V>(g: Graph<V>, stack: seq<nat>, x: Visit, next: nat) {
    x.block < |g.blocks| && next < |g.blocks| &&
    if x.throws then
      var active := ActiveAt(g, stack, x.block, x.upTo);
      x.upTo < |g.Instructions(x.block)| && active != [] && next == active[|active| - 1]
    else
      x.upTo == |g.Instructions(x.block)| && next in g.Succs(x.block) && !StartsWith(g, next, Catch)
  }

  /** The stack with which the next block is entered; an exception uses its handler up. */
  function Next<V>(g: Graph<V>, stack: seq<nat>, x: Visit): seq<nat> {
    if x.throws then
      var active := ActiveAt(g, stack, x.block, x.upTo);
      if active == [] then [] else active[..|active| - 1]
    else Leaving(g, stack, x.block)
  }

  /** A run that starts with the handlers `stack`: a chain of visits; the last one may still be under way. */
  predicate IsRun<V>(g: Graph<V>, stack: seq<nat>, path: seq<Visit>)
    decreases |path|
  {
    path != [] ==>
      && path[0].block < |g.blocks| && path[0].upTo <= |g.Instructions(path[0].block)|
      && (|path| > 1 ==> Continues(g, stack, path[0], path[1].block) && IsRun(g, Next(g, stack, path[0]), path[1..]))
  }

  // ----- Blocks with a fixed stack of handlers -----

  /** Every handler on the stack of a block was put there by a try block with the handlers below it. */
  ghost predicate Opened<V>(g: Graph<V>, typed: seq<seq<nat>>, b: nat, i: nat)
    requires b < |typed| && i < |typed[b]|
  {
    exists t: nat :: t < |g.blocks| && t < |typed| && StartsWith(g, t, TryBegin)
      && HandlerFrom(g, g.Succs(t)) == typed[b][i] && typed[t] == typed[b][..i]
  }

  /** Try blocks nest: each block is always entered with the same handlers, a handler with those around its try
   * block. */
  ghost predicate Structured<V>(g: Graph<V>, typed: seq<seq<nat>>) {
    && |typed| == |g.blocks| && (|typed| > 0 ==> typed[0] == [])
    && (forall b: nat, s: nat :: b < |g.blocks| && s in g.Succs(b) && s < |typed| && !StartsWith(g, s, Catch) ==>
          typed[s] == Leaving(g, typed[b], b))
    && (forall t: nat :: t < |g.blocks| && StartsWith(g, t, TryBegin) && 0 <= HandlerFrom(g, g.Succs(t)) < |typed| ==>
          HandlerFrom(g, g.Succs(t)) !in typed[t] && typed[HandlerFrom(g, g.Succs(t))] == typed[t])
    && (forall b: nat, i: nat :: b < |typed| && i < |typed[b]| ==> Opened(g, typed, b, i))
  }

  /** The try region of every active handler covers the block, and the try blocks of the handlers further in. */
  ghost predicate Covered<V>(g: Graph<V>, stack: seq<nat>, b: nat) {
    && (forall i :: 0 <= i < |stack| ==> Guards(g, stack[i], b))
    && (forall i, j :: 0 <= j < i < |stack| ==> GuardsTryOf(g, stack[j], stack[i]))
  }

  ghost predicate GuardsTryOf<V>(g: Graph<V>, outer: nat, inner: nat) {
    exists t: nat :: t < |g.blocks| && StartsWith(g, t, TryBegin) && HandlerFrom(g, g.Succs(t)) == inner &&
      Guards(g, outer, t)
  }

  lemma HandlerStartsWithCatch<V>(g: Graph<V>, succs: seq<nat>)
    ensures HandlerFrom(g, succs) >= 0 ==> StartsWith(g, HandlerFrom(g, succs), Catch)
  {
  }

  /** A region is closed under edges that do not enter its handler. */
  lemma GuardsNext<V>(g: Graph<V>, h: nat, b: nat, s: nat)
    requires Guards(g, h, b) && b < |g.blocks| && s in g.Succs(b) && s != h
    ensures Guards(g, h, s)
  {
    var t: nat :| t < |g.blocks| && StartsWith(g, t, TryBegin) && HandlerFrom(g, g.Succs(t)) == h &&
      InRegion(g, t, h, b);
    assert InRegion(g, t, h, s);
  }

  lemma GuardsOwn<V>(g: Graph<V>, t: nat)
    requires t < |g.blocks| && StartsWith(g, t, TryBegin) && HandlerFrom(g, g.Succs(t)) >= 0
    ensures Guards(g, HandlerFrom(g, g.Succs(t)), t)
  {
    HandlerStartsWithCatch(g, g.Succs(t));
    assert InRegion(g, t, HandlerFrom(g, g.Succs(t)), t);
  }

  lemma CoveredPrefix<V>(g: Graph<V>, stack: seq<nat>, b: nat, k: nat)
    requires Covered(g, stack, b)
    ensures Covered(g, ActiveAt(g, stack, b, k), b)
  {
    hide Guards, GuardsTryOf, StartsWith;
    var active := ActiveAt(g, stack, b, k);
    forall i | 0 <= i < |active| ensures Guards(g, active[i], b) { assert active[i] == stack[i]; }
  }

  /** Along a branch the regions of all active handlers are kept, a new one included. */
  lemma CoveredBranch<V>(g: Graph<V>, stack: seq<nat>, b: nat, next: nat)
    requires Covered(g, stack, b) && b < |g.blocks| && next in g.Succs(b) && !StartsWith(g, next, Catch)
    ensures Covered(g, Leaving(g, stack, b), next)
  {
    hide Guards, InRegion;
    CoveredPrefix(g, stack, b, 1);
    var rest, left := ActiveAt(g, stack, b, 1), Leaving(g, stack, b);
    forall i | 0 <= i < |left| ensures Guards(g, left[i], b) {
      if i < |rest| { assert left[i] == rest[i]; } else { GuardsOwn(g, b); }
    }
    forall i | 0 <= i < |left| ensures Guards(g, left[i], next) {
      GuardStartsWithCatch(g, left[i], b);
      GuardsNext(g, left[i], b, next);
    }
    forall i, j | 0 <= j < i < |left| ensures GuardsTryOf(g, left[j], left[i]) {
      if i < |rest| { assert left[i] == rest[i] && left[j] == rest[j]; } else { assert Guards(g, left[j], b); }
    }
  }

  lemma GuardStartsWithCatch<V>(g: Graph<V>, h: nat, b: nat)
    requires Guards(g, h, b)
    ensures StartsWith(g, h, Catch)
  {
    var t: nat :| t < |g.blocks| && StartsWith(g, t, TryBegin) && HandlerFrom(g, g.Succs(t)) == h &&
      InRegion(g, t, h, b);
    HandlerStartsWithCatch(g, g.Succs(t));
  }

  /** In the innermost handler the regions of the outer ones are kept. */
  lemma CoveredThrow<V>(g: Graph<V>, stack: seq<nat>, b: nat)
    requires Covered(g, stack, b) && stack != []
    requires (forall j :: 0 <= j < |stack| - 1 ==> stack[j] != stack[|stack| - 1])
    ensures Covered(g, stack[..|stack| - 1], stack[|stack| - 1])
  {
    hide Guards, InRegion, StartsWith;
    var last := |stack| - 1;
    var h, rest := stack[last], stack[..last];
    forall j | 0 <= j < |rest| ensures Guards(g, rest[j], h) {
      assert rest[j] == stack[j] && GuardsTryOf(g, stack[j], stack[last]);
      var t: nat :| t < |g.blocks| && StartsWith(g, t, TryBegin) && HandlerFrom(g, g.Succs(t)) == h &&
        Guards(g, stack[j], t);
      GuardsNext(g, stack[j], t, h);
    }
    forall i, j | 0 <= j < i < |rest| ensures GuardsTryOf(g, rest[j], rest[i]) {
      assert GuardsTryOf(g, stack[j], stack[i]);
    }
  }

  /** What holds on entry to a block of a run. */
  ghost predicate Entered<V>(g: Graph<V>, typed: seq<seq<nat>>, stack: seq<nat>, b: nat) {
    b < |typed| && stack == typed[b] && Covered(g, stack, b)
  }

  /** Runs keep to the fixed stacks, and every active handler's region covers the current block. */
  lemma EntersNext<V>(g: Graph<V>, typed: seq<seq<nat>>, stack: seq<nat>, x: Visit, next: nat)
    requires Structured(g, typed) && Entered(g, typed, stack, x.block) && Continues(g, stack, x, next)
    ensures Entered(g, typed, Next(g, stack, x), next)
    ensures x.throws ==> Guards(g, next, x.block)
  {
    hide Guards, InRegion, StartsWith;
    if x.throws {
      var active := ActiveAt(g, stack, x.block, x.upTo);
      CoveredPrefix(g, stack, x.block, x.upTo);
      var last := |active| - 1;
      assert active == typed[x.block][..|active|] && active[last] == typed[x.block][last];
      assert Opened(g, typed, x.block, last);
      var t: nat :| t < |g.blocks| && t < |typed| && StartsWith(g, t, TryBegin)
        && HandlerFrom(g, g.Succs(t)) == typed[x.block][last] && typed[t] == typed[x.block][..last];
      assert active[..last] == typed[t];
      forall j | 0 <= j < last ensures active[j] != active[last] { assert active[j] == typed[t][j]; }
      CoveredThrow(g, active, x.block);
    } else {
      CoveredBranch(g, stack, x.block, next);
    }
  }
}
