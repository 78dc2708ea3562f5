/** The interference graph and greedy register coalescing
    (src/compiler/RegisterAllocator.cpp:308-371, 395-451). */
module Interference {
  import opened AllocatorIR

  /** What is live just before instruction `k` of block `b`, when `out` is live at its end. */
  function LiveBefore<V>(g: Graph<V>, consts: set<int>, b: nat, k: nat, out: set<int>): set<int>
    requires k <= |g.Instructions(b)|
    decreases |g.Instructions(b)| - k
  {
    var code := g.Instructions(b);
    if k == |code| then out
    else (LiveBefore(g, consts, b, k + 1, out) - g.Writes(code[k])) + g.Reads(consts, code[k])
  }

  /** Instruction `k` of block `b` writes `u` while `v` is live behind it; a Move does not clash with its own source. */
  predicate ClashAt<V>(g: Graph<V>, consts: set<int>, b: nat, k: nat, out: set<int>, u: int, v: int) {
    var code := g.Instructions(b);
    k < |code| && u in g.Writes(code[k]) && v != u && v != g.MoveSource(code[k]) &&
      v in LiveBefore(g, consts, b, k + 1, out)
  }

  /** Some instruction of block `b`, from `k0` on, makes `u` and `v` clash. */
  ghost predicate BlockClash<V>(g: Graph<V>, consts: set<int>, b: nat, k0: nat, out: set<int>, u: int, v: int) {
    exists k: nat :: k >= k0 && (ClashAt(g, consts, b, k, out, u, v) || ClashAt(g, consts, b, k, out, v, u))
  }

  ghost predicate ClashBelow<V>(g: Graph<V>, consts: set<int>, liveOut: seq<set<int>>, upTo: nat, u: int, v: int) {
    exists b: nat :: b < |liveOut| && b < upTo && BlockClash(g, consts, b, 0, liveOut[b], u, v)
  }

  /** `u` and `v` must not share a location. */
  ghost predicate Clash<V>(g: Graph<V>, consts: set<int>, liveOut: seq<set<int>>, u: int, v: int) {
    ClashBelow(g, consts, liveOut, |liveOut|, u, v)
  }

  predicate NoDuplicates(s: seq<int>) {
    forall i, j :: 0 <= i < j < |s| ==> s[i] != s[j]
  }

  /** adjMatrix, adjList and degree, kept in step by addEdge. */
  class ConflictGraph {
    const size: nat
    var adj: set<(int, int)>
    var adjList: seq<seq<int>>
    var degree: seq<int>

    ghost predicate Valid()
      reads this
    {
      && |adjList| == |degree| == size
      && (forall u, v :: (u, v) in adj ==> (v, u) in adj && u != v && 0 <= u < size && 0 <= v < size)
      && (forall u, v :: 0 <= u < size ==> (v in adjList[u] <==> (u, v) in adj))
      && (forall u :: 0 <= u < size ==> NoDuplicates(adjList[u]) && degree[u] == |adjList[u]|)
    }

    constructor (n: nat)
      ensures Valid() && size == n && adj == {}
    {
      size := n;
      adj := {};
      adjList := seq(n, _ => []);
      degree := seq(n, _ => 0);
    }

    method AddEdge(u: int, v: int)
      requires Valid() && 0 <= u < size && 0 <= v < size
      modifies this
      ensures Valid()
      ensures adj == old(adj) + (if u == v then {} else {(u, v), (v, u)})
      ensures forall w :: 0 <= w < size && w != u && w != v ==> adjList[w] == old(adjList[w])
      ensures u == v || (u, v) in old(adj) ==> adjList == old(adjList)
    {
      if u != v && (u, v) !in adj {
        assert (v, u) !in adj;
        adj := adj + {(u, v), (v, u)};
        assert u !in adjList[v] && v !in adjList[u];
        adjList := adjList[u := adjList[u] + [v]][v := adjList[v] + [u]];
        degree := degree[u := degree[u] + 1][v := degree[v] + 1];
      }
    }
  }

  /** All registers the graph mentions are below `n`. */
  ghost predicate Bounded<V>(g: Graph<V>, n: nat) {
    forall i :: 0 <= i < |g.nodes| ==> g.nodes[i].vreg < n
  }

  lemma LiveBounded<V>(g: Graph<V>, consts: set<int>, b: nat, k: nat, out: set<int>, n: nat)
    requires g.Valid() && Bounded(g, n) && k <= |g.Instructions(b)|
    requires forall v :: v in out ==> 0 <= v < n
    ensures forall v :: v in LiveBefore(g, consts, b, k, out) ==> 0 <= v < n
    decreases |g.Instructions(b)| - k
  {
    if k < |g.Instructions(b)| {
      LiveBounded(g, consts, b, k + 1, out, n);
    }
  }

  ghost predicate HintsBounded(hints: seq<seq<int>>, n: nat) {
    |hints| == n && forall i, h :: 0 <= i < n && h in hints[i] ==> 0 <= h < n
  }

  /** Scans every block backwards; the graph's edges are exactly the clashes. */
  method Build<V>(g: Graph<V>, consts: set<int>, liveOut: seq<set<int>>, n: nat)
    returns (cg: ConflictGraph, hints: seq<seq<int>>)
    requires g.Valid() && Bounded(g, n) && |liveOut| == |g.blocks|
    requires forall b, v :: 0 <= b < |liveOut| && v in liveOut[b] ==> 0 <= v < n
    ensures fresh(cg) && cg.Valid() && cg.size == n
    ensures forall u, v :: (u, v) in cg.adj <==> Clash(g, consts, liveOut, u, v)
    ensures HintsBounded(hints, n)
    ensures forall i, h :: 0 <= i < n ==> (h in hints[i] <==> MovedBelow(g, |g.blocks|, i, h))
  {
    cg := new ConflictGraph(n);
    hints := seq(n, _ => []);
    for b := 0 to |g.blocks|
      invariant fresh(cg) && cg.Valid() && cg.size == n && HintsBounded(hints, n)
      invariant forall u, v :: (u, v) in cg.adj <==> ClashBelow(g, consts, liveOut, b, u, v)
      invariant forall i, h :: 0 <= i < n ==> (h in hints[i] <==> MovedBelow(g, b, i, h))
    {
      ghost var before := cg.adj;
      hints := ScanBlock(g, consts, b, liveOut[b], n, cg, hints);
      forall u, v
        ensures (u, v) in cg.adj <==> ClashBelow(g, consts, liveOut, b + 1, u, v)
      {
        assert (u, v) in before <==> ClashBelow(g, consts, liveOut, b, u, v);
      }
      assert forall i, h :: MovedBelow(g, b + 1, i, h) <==> MovedBelow(g, b, i, h) || MovedIn(g, b, 0, i, h);
    }
  }

  method ScanBlock<V>(g: Graph<V>, consts: set<int>, b: nat, out: set<int>, n: nat, cg: ConflictGraph,
                      hints0: seq<seq<int>>)
    returns (hints: seq<seq<int>>)
    requires g.Valid() && Bounded(g, n) && b < |g.blocks|
    requires forall v :: v in out ==> 0 <= v < n
    requires cg.Valid() && cg.size == n && HintsBounded(hints0, n)
    modifies cg
    ensures cg.Valid() && HintsBounded(hints, n)
    ensures forall u, v :: (u, v) in cg.adj <==> (u, v) in old(cg.adj) || BlockClash(g, consts, b, 0, out, u, v)
    ensures forall i, h :: 0 <= i < n ==> (h in hints[i] <==> h in hints0[i] || MovedIn(g, b, 0, i, h))
  {
    var code := g.blocks[b].instructions;
    var live := out;
    hints := hints0;
    for k := |code| downto 0
      invariant cg.Valid() && HintsBounded(hints, n)
      invariant live == LiveBefore(g, consts, b, k, out)
      invariant forall u, v :: (u, v) in cg.adj <==> (u, v) in old(cg.adj) || BlockClash(g, consts, b, k, out, u, v)
      invariant forall i, h :: 0 <= i < n ==> (h in hints[i] <==> h in hints0[i] || MovedIn(g, b, k, i, h))
    {
      ghost var hints1 := hints;
      var inst := code[k];
      var src := g.MoveSource(inst);
      var dst := g.nodes[inst].vreg;
      if src != NO_REG && dst != NO_REG {
        hints := AddHint(AddHint(hints, n, dst, src), n, src, dst);
      }
      MovedHere(g, b, k, n, hints1, hints);
      LiveBounded(g, consts, b, k + 1, out, n);
      ghost var before := cg.adj;
      if dst != NO_REG {
        live := live - {dst};
        AddClashes(cg, dst, live, src);
      }
      forall u, v
        ensures (u, v) in cg.adj <==> (u, v) in old(cg.adj) || BlockClash(g, consts, b, k, out, u, v)
      {
        OneMoreInstruction(g, consts, b, k, out, u, v);
        assert (u, v) in before <==> (u, v) in old(cg.adj) || BlockClash(g, consts, b, k + 1, out, u, v);
      }
      live := live + g.Reads(consts, inst);
    }
  }

  /** The instruction moves one of the two registers to the other. */
  ghost predicate Moves<V>(g: Graph<V>, inst: nat, i: int, h: int) {
    inst < |g.nodes| && g.MoveSource(inst) != NO_REG && g.nodes[inst].vreg != NO_REG &&
      ((i == g.nodes[inst].vreg && h == g.MoveSource(inst)) || (i == g.MoveSource(inst) && h == g.nodes[inst].vreg))
  }

  ghost predicate MovedIn<V>(g: Graph<V>, b: nat, k: nat, i: int, h: int) {
    b < |g.blocks| && exists l :: k <= l < |g.blocks[b].instructions| && Moves(g, g.blocks[b].instructions[l], i, h)
  }

  ghost predicate MovedBelow<V>(g: Graph<V>, count: nat, i: int, h: int) {
    exists b: nat :: b < count && MovedIn(g, b, 0, i, h)
  }

  lemma MovedHere<V>(g: Graph<V>, b: nat, k: nat, n: nat, hints0: seq<seq<int>>, hints: seq<seq<int>>)
    requires g.Valid() && Bounded(g, n) && b < |g.blocks| && k < |g.blocks[b].instructions| && HintsBounded(hints0, n)
    requires var inst := g.blocks[b].instructions[k];
      var src, dst := g.MoveSource(inst), g.nodes[inst].vreg;
      hints == if src != NO_REG && dst != NO_REG then
        (var once := hints0[dst := hints0[dst] + [src]]; once[src := once[src] + [dst]]) else hints0
    ensures forall i, h :: 0 <= i < n ==>
      (h in hints[i] <==> h in hints0[i] || Moves(g, g.blocks[b].instructions[k], i, h))
    ensures forall i, h :: MovedIn(g, b, k, i, h) <==>
      MovedIn(g, b, k + 1, i, h) || Moves(g, g.blocks[b].instructions[k], i, h)
  {
  }

  function AddHint(hints: seq<seq<int>>, n: nat, i: int, h: int): (r: seq<seq<int>>)
    requires HintsBounded(hints, n) && 0 <= i < n && 0 <= h < n
    ensures HintsBounded(r, n)
  {
    hints[i := hints[i] + [h]]
  }

  lemma OneMoreInstruction<V>(g: Graph<V>, consts: set<int>, b: nat, k: nat, out: set<int>, u: int, v: int)
    ensures BlockClash(g, consts, b, k, out, u, v) <==>
      BlockClash(g, consts, b, k + 1, out, u, v) || ClashAt(g, consts, b, k, out, u, v) ||
        ClashAt(g, consts, b, k, out, v, u)
  {
  }

  /** Edges from `d` to every register of `live` except `src`. */
  method AddClashes(cg: ConflictGraph, d: int, live: set<int>, src: int)
    requires cg.Valid() && 0 <= d < cg.size && d !in live
    requires forall l :: l in live ==> 0 <= l < cg.size
    modifies cg
    ensures cg.Valid()
    ensures forall u, v :: (u, v) in cg.adj <==>
      (u, v) in old(cg.adj) || (u == d && v in live && v != src) || (v == d && u in live && u != src)
  {
    for l := 0 to cg.size
      invariant cg.Valid()
      invariant forall u, v :: (u, v) in cg.adj <==>
        (u, v) in old(cg.adj) || (u == d && v in live && v < l && v != src) ||
          (v == d && u in live && u < l && u != src)
    {
      if l in live && l != src {
        cg.AddEdge(d, l);
      }
    }
  }
}
