/** Greedy move coalescing over an alias forest (src/compiler/RegisterAllocator.cpp:395-451). */
module Coalescing {
  import opened AllocatorIR
  import opened Interference

  /** `root` is what getAlias answers for the table `alias`; `rank` falls along every alias chain. */
  ghost predicate IsForest(alias: seq<int>, root: seq<int>, rank: seq<nat>) {
    && |alias| == |root| == |rank|
    && (forall i :: 0 <= i < |alias| ==> 0 <= alias[i] < |alias|)
    && (forall i :: 0 <= i < |root| ==> 0 <= root[i] < |root|)
    && (forall i {:trigger root[root[i]]} :: 0 <= i < |root| ==> root[root[i]] == root[i])
    && (forall i {:trigger alias[i]} :: 0 <= i < |alias| ==> (alias[i] == i <==> root[i] == i))
    && (forall i {:trigger alias[i]} :: 0 <= i < |alias| ==> root[alias[i]] == root[i])
    && (forall i {:trigger alias[i]} :: 0 <= i < |alias| && alias[i] != i ==> rank[alias[i]] < rank[i])
  }

  /** The roots after the class of `v` joined the class of `u`. */
  function Redirect(root: seq<int>, v: int, u: int): (r: seq<int>)
    ensures |r| == |root| && forall i :: 0 <= i < |root| ==> r[i] == if root[i] == v then u else root[i]
  {
    seq(|root|, i requires 0 <= i < |root| => if root[i] == v then u else root[i])
  }

  /** A root other than `x` lies strictly below every `x` that leads to it. */
  lemma {:induction false} RootBelow(alias: seq<int>, root: seq<int>, rank: seq<nat>, x: int)
    requires IsForest(alias, root, rank) && 0 <= x < |alias| && alias[x] != x
    ensures root[x] != x && rank[root[x]] < rank[x]
    decreases rank[x]
  {
    if alias[x] != root[x] {
      assert root[alias[x]] == root[x];
      RootBelow(alias, root, rank, alias[x]);
    }
  }

  lemma ShortcutKeeps(alias: seq<int>, root: seq<int>, rank: seq<nat>, x: int)
    requires IsForest(alias, root, rank) && 0 <= x < |alias| && alias[x] != x
    ensures IsForest(alias[x := root[x]], root, rank)
  {
    RootBelow(alias, root, rank, x);
  }

  lemma LinkKeeps(alias: seq<int>, root: seq<int>, rank: seq<nat>, v: int, u: int)
    requires IsForest(alias, root, rank) && 0 <= u < |root| && 0 <= v < |root| && u != v && root[u] == u && root[v] == v
    ensures IsForest(alias[v := u], Redirect(root, v, u), Reranked(root, rank, v, u))
  {
    var alias', root', rank' := alias[v := u], Redirect(root, v, u), Reranked(root, rank, v, u);
    forall i | 0 <= i < |alias|
      ensures root'[alias'[i]] == root'[i] && (alias'[i] != i ==> rank'[alias'[i]] < rank'[i])
    {
      assert root[alias[i]] == root[i];
    }
  }

  ghost function Reranked(root: seq<int>, rank: seq<nat>, v: int, u: int): (r: seq<nat>)
    requires |root| == |rank| && 0 <= u < |rank|
    ensures |r| == |rank|
    ensures forall i :: 0 <= i < |rank| ==> r[i] == if root[i] == v then rank[i] + rank[u] + 1 else rank[i]
  {
    seq(|rank|, i requires 0 <= i < |rank| => if root[i] == v then rank[i] + rank[u] + 1 else rank[i])
  }

  /** The alias table with path compression. */
  class AliasForest {
    const size: nat
    var alias: seq<int>
    ghost var root: seq<int>
    ghost var rank: seq<nat>

    ghost predicate Valid()
      reads this
    {
      |alias| == size && IsForest(alias, root, rank)
    }

    constructor (n: nat)
      ensures Valid() && size == n
      ensures forall i :: 0 <= i < n ==> root[i] == i
    {
      size := n;
      alias := seq(n, i => i);
      root := seq(n, i => i);
      rank := seq(n, _ => 0);
    }

    /** getAlias: finds the root and shortcuts the chain to it; no root changes. */
    method Find(x: int) returns (r: int)
      requires Valid() && 0 <= x < size
      modifies this
      ensures Valid() && r == root[x] && root == old(root) && rank == old(rank)
      decreases rank[x]
    {
      if alias[x] == x {
        return x;
      }
      r := Find(alias[x]);
      if alias[x] != x {
        ShortcutKeeps(alias, root, rank, x);
      }
      alias := alias[x := r];
    }

    /** alias[v] = u for two different roots: the class of `v` joins the class of `u`. */
    method Link(v: int, u: int)
      requires Valid() && 0 <= u < size && 0 <= v < size && u != v && root[u] == u && root[v] == v
      modifies this
      ensures Valid() && root == Redirect(old(root), v, u)
    {
      LinkKeeps(alias, root, rank, v, u);
      alias, root, rank := alias[v := u], Redirect(root, v, u), Reranked(root, rank, v, u);
    }
  }

  // ----- What coalescing keeps -----

  /** Precolours are distinct and sit on roots of their classes. */
  ghost predicate PrecolourKept(pre: seq<int>, root: seq<int>)
    requires |pre| == |root| && forall i :: 0 <= i < |root| ==> 0 <= root[i] < |root|
  {
    forall i :: 0 <= i < |pre| && pre[i] != -1 ==> root[i] == i
  }

  ghost predicate DistinctPrecolours(pre: seq<int>) {
    forall i, j :: 0 <= i < j < |pre| && pre[i] != -1 ==> pre[i] != pre[j]
  }

  /** Every edge is also an edge between the two classes; as no edge is a loop, classes hold no edge inside. */
  ghost predicate EdgesFollowRoots(adj: set<(int, int)>, root: seq<int>) {
    forall a, b :: (a, b) in adj && 0 <= a < |root| && 0 <= b < |root| ==> (root[a], root[b]) in adj
  }

  /** A register in `special` is alone in its class. */
  ghost predicate Alone(special: set<int>, root: seq<int>) {
    forall i :: 0 <= i < |root| && (i in special || root[i] in special) ==> root[i] == i
  }

  /** Every class with a member in `used` has its root in `used`. */
  ghost predicate RootsUsed(used: set<int>, root: seq<int>) {
    forall i :: 0 <= i < |root| && i in used ==> root[i] in used
  }

  ghost predicate Kept(adj: set<(int, int)>, root: seq<int>, pre: seq<int>, consts: set<int>, used: set<int>) {
    && |pre| == |root| && (forall i :: 0 <= i < |root| ==> 0 <= root[i] < |root|)
    && EdgesFollowRoots(adj, root) && PrecolourKept(pre, root) && Alone(consts, root) && RootsUsed(used, root)
  }

  /** All Move operands that are registers occur in `used`. */
  ghost predicate MovesUsed<V>(g: Graph<V>, consts: set<int>, used: set<int>) {
    forall b, k :: 0 <= b < |g.blocks| && 0 <= k < |g.blocks[b].instructions| ==>
      MoveUsed(g, consts, used, g.blocks[b].instructions[k])
  }

  ghost predicate MoveUsed<V>(g: Graph<V>, consts: set<int>, used: set<int>, n: nat) {
    n < |g.nodes| && g.MoveSource(n) != NO_REG && g.MoveSource(n) !in consts && g.nodes[n].vreg !in consts ==>
      g.MoveSource(n) in used && g.nodes[n].vreg in used
  }

  /** The classes of `u` and `v` are one, or clash, or are bound to different slots. */
  ghost predicate Tried(adj: set<(int, int)>, root: seq<int>, pre: seq<int>, u: int, v: int) {
    0 <= u < |root| && 0 <= v < |root| ==> ClassesTried(adj, pre, root[u], root[v])
  }

  ghost predicate ClassesTried(adj: set<(int, int)>, pre: seq<int>, a: int, b: int) {
    a == b || (a, b) in adj || (0 <= a < |pre| && 0 <= b < |pre| && pre[a] != -1 && pre[b] != -1 && pre[a] != pre[b])
  }

  ghost predicate MoveTried<V>(g: Graph<V>, consts: set<int>, adj: set<(int, int)>, root: seq<int>, pre: seq<int>,
                               n: nat) {
    n < |g.nodes| && g.MoveSource(n) != NO_REG && g.MoveSource(n) !in consts && g.nodes[n].vreg !in consts ==>
      Tried(adj, root, pre, g.nodes[n].vreg, g.MoveSource(n))
  }

  /** The classes have only grown. */
  ghost predicate Coarser(root0: seq<int>, root: seq<int>) {
    |root| == |root0| && forall i :: 0 <= i < |root0| && 0 <= root0[i] < |root0| ==> root[root0[i]] == root[i]
  }

  /** An edge of `adj0` runs between the classes of `a` and `b`. */
  ghost predicate Between(adj0: set<(int, int)>, root: seq<int>, a: int, b: int) {
    0 <= a < |root| && 0 <= b < |root| && exists x, y :: (x, y) in adj0 && Members(root, x, a) && Members(root, y, b)
  }

  predicate Members(root: seq<int>, x: int, a: int) {
    0 <= x < |root| && 0 <= a < |root| && root[x] == root[a]
  }

  /** Classes are adjacent only where members are. */
  ghost predicate FromEdges(adj0: set<(int, int)>, root: seq<int>, adj: set<(int, int)>) {
    forall a, b :: (a, b) in adj ==> Between(adj0, root, a, b)
  }

  lemma FromEdgesThrough(adj0: set<(int, int)>, root1: seq<int>, adj1: set<(int, int)>, root: seq<int>,
                         adj: set<(int, int)>)
    requires FromEdges(adj0, root1, adj1) && FromEdges(adj1, root, adj) && Coarser(root1, root)
    requires forall i :: 0 <= i < |root1| ==> 0 <= root1[i] < |root1|
    ensures FromEdges(adj0, root, adj)
  {
    forall a, b | (a, b) in adj ensures Between(adj0, root, a, b) {
      assert Between(adj1, root, a, b);
      var x, y :| (x, y) in adj1 && Members(root, x, a) && Members(root, y, b);
      assert Between(adj0, root1, x, y);
      var p, q :| (p, q) in adj0 && Members(root1, p, x) && Members(root1, q, y);
      assert root[root1[p]] == root[p] && root[root1[x]] == root[x];
      assert root[root1[q]] == root[q] && root[root1[y]] == root[y];
    }
  }

  lemma InheritedFrom(adj0: set<(int, int)>, root: seq<int>, u: int, v: int, adj: set<(int, int)>)
    requires forall a, b :: (a, b) in adj <==> Inherited(adj0, root, u, v, a, b)
    requires forall i :: 0 <= i < |root| ==> 0 <= root[i] < |root| && root[root[i]] == root[i]
    requires forall a, b :: (a, b) in adj0 ==> (b, a) in adj0 && 0 <= a < |root| && 0 <= b < |root|
    requires 0 <= u < |root| && 0 <= v < |root| && root[v] == u
    ensures FromEdges(adj0, root, adj)
  {
    forall a, b | (a, b) in adj ensures Between(adj0, root, a, b) {
      if (a, b) in adj0 {
        assert Members(root, a, a) && Members(root, b, b);
      } else if a == u && b != u && Beside(adj0, root, v, b) {
        var w :| (v, w) in adj0 && 0 <= w < |root| && root[w] == b;
        assert Members(root, v, a) && Members(root, w, b);
      } else {
        var w :| (v, w) in adj0 && 0 <= w < |root| && root[w] == a;
        assert (w, v) in adj0 && Members(root, w, a) && Members(root, v, b);
      }
    }
  }

  /** What cannot be joined cannot be joined later. */
  lemma StaysTried(adj0: set<(int, int)>, root0: seq<int>, adj: set<(int, int)>, root: seq<int>, pre: seq<int>,
                   consts: set<int>, used: set<int>, u: int, v: int)
    requires Kept(adj0, root0, pre, consts, used) && Kept(adj, root, pre, consts, used) && adj0 <= adj
    requires Coarser(root0, root) && Tried(adj0, root0, pre, u, v)
    ensures Tried(adj, root, pre, u, v)
  {
    if 0 <= u < |root| && 0 <= v < |root| {
      var a, b := root0[u], root0[v];
      assert root[a] == root[u] && root[b] == root[v];
      if (a, b) in adj0 { assert (a, b) in adj; }
    }
  }

  /** The Moves of the blocks before `b`, and the first `k` of block `b`, have been tried. */
  ghost predicate TriedUpTo<V>(g: Graph<V>, consts: set<int>, adj: set<(int, int)>, root: seq<int>, pre: seq<int>,
                               b: nat, k: nat) {
    forall c, l :: 0 <= c < |g.blocks| && 0 <= l < |g.blocks[c].instructions| && (c < b || (c == b && l < k)) ==>
      MoveTried(g, consts, adj, root, pre, g.blocks[c].instructions[l])
  }

  lemma TriedNext<V>(g: Graph<V>, consts: set<int>, adj0: set<(int, int)>, root0: seq<int>, adj: set<(int, int)>,
                     root: seq<int>, pre: seq<int>, b: nat, k: nat)
    requires TriedUpTo(g, consts, adj0, root0, pre, b, k) && b < |g.blocks| && k < |g.blocks[b].instructions|
    requires forall n: nat :: MoveTried(g, consts, adj0, root0, pre, n) ==> MoveTried(g, consts, adj, root, pre, n)
    requires MoveTried(g, consts, adj, root, pre, g.blocks[b].instructions[k])
    ensures TriedUpTo(g, consts, adj, root, pre, b, k + 1)
    ensures k + 1 == |g.blocks[b].instructions| ==> TriedUpTo(g, consts, adj, root, pre, b + 1, 0)
  {
    hide MoveTried;
  }

  lemma TriedEmpty<V>(g: Graph<V>, consts: set<int>, adj: set<(int, int)>, root: seq<int>, pre: seq<int>, b: nat)
    requires b < |g.blocks| && g.blocks[b].instructions == [] && TriedUpTo(g, consts, adj, root, pre, b, 0)
    ensures TriedUpTo(g, consts, adj, root, pre, b + 1, 0)
  {
    hide MoveTried;
  }

  /** Tries to join the two ends of every Move; in the end no Move is left whose ends could be joined. */
  method Coalesce<V>(g: Graph<V>, consts: set<int>, pre: seq<int>, cg: ConflictGraph, forest: AliasForest,
                     ghost used: set<int>)
    returns (coalesced: bool)
    requires g.Valid() && cg.Valid() && forest.Valid() && |pre| == cg.size == forest.size && Bounded(g, cg.size)
    requires DistinctPrecolours(pre) && MovesUsed(g, consts, used)
    requires forall i :: 0 <= i < forest.size ==> forest.root[i] == i
    modifies cg, forest
    ensures cg.Valid() && forest.Valid()
    ensures Kept(cg.adj, forest.root, pre, consts, used) && old(cg.adj) <= cg.adj
    ensures TriedUpTo(g, consts, cg.adj, forest.root, pre, |g.blocks|, 0)
    ensures FromEdges(old(cg.adj), forest.root, cg.adj)
    ensures !coalesced ==> cg.adj == old(cg.adj) && cg.adjList == old(cg.adjList) && cg.degree == old(cg.degree)
    ensures !coalesced ==> forall i :: 0 <= i < forest.size ==> forest.root[i] == i
  {
    hide MoveTried, FromEdges, Kept, TriedUpTo;
    assert Kept(cg.adj, forest.root, pre, consts, used) && FromEdges(cg.adj, forest.root, cg.adj) by {
      KeptAtFirst(cg.adj, forest.root, pre, consts, used);
    }
    NothingTried(g, consts, cg.adj, forest.root, pre);
    coalesced := false;
    for b := 0 to |g.blocks|
      invariant cg.Valid() && forest.Valid() && Kept(cg.adj, forest.root, pre, consts, used) && old(cg.adj) <= cg.adj
      invariant TriedUpTo(g, consts, cg.adj, forest.root, pre, b, 0) && FromEdges(old(cg.adj), forest.root, cg.adj)
      invariant !coalesced ==> cg.adj == old(cg.adj) && cg.adjList == old(cg.adjList) && cg.degree == old(cg.degree)
      invariant !coalesced ==> forest.root == old(forest.root)
    {
      var code := g.blocks[b].instructions;
      if code == [] { TriedEmpty(g, consts, cg.adj, forest.root, pre, b); }
      for k := 0 to |code|
        invariant cg.Valid() && forest.Valid() && Kept(cg.adj, forest.root, pre, consts, used) && old(cg.adj) <= cg.adj
        invariant TriedUpTo(g, consts, cg.adj, forest.root, pre, b, k) && FromEdges(old(cg.adj), forest.root, cg.adj)
        invariant k == |code| ==> TriedUpTo(g, consts, cg.adj, forest.root, pre, b + 1, 0)
        invariant !coalesced ==> cg.adj == old(cg.adj) && cg.adjList == old(cg.adjList) && cg.degree == old(cg.degree)
        invariant !coalesced ==> forest.root == old(forest.root)
      {
        ghost var adj0, root0 := cg.adj, forest.root;
        var joined := TryMove(g, code[k], pre, cg, forest, consts, used);
        coalesced := coalesced || joined;
        FromEdgesThrough(old(cg.adj), root0, adj0, forest.root, cg.adj);
        TriedNext(g, consts, adj0, root0, cg.adj, forest.root, pre, b, k);
      }
    }
  }

  /** Joins the two ends of instruction `n` if it is a Move between registers that can be joined. */
  method TryMove<V>(g: Graph<V>, n: nat, pre: seq<int>, cg: ConflictGraph, forest: AliasForest, consts: set<int>,
                    ghost used: set<int>)
    returns (joined: bool)
    requires g.Valid() && n < |g.nodes| && MoveUsed(g, consts, used, n) && Bounded(g, cg.size)
    requires cg.Valid() && forest.Valid() && |pre| == cg.size == forest.size
    requires DistinctPrecolours(pre) && Kept(cg.adj, forest.root, pre, consts, used)
    modifies cg, forest
    ensures cg.Valid() && forest.Valid() && Kept(cg.adj, forest.root, pre, consts, used) && old(cg.adj) <= cg.adj
    ensures !joined ==> cg.adj == old(cg.adj) && cg.adjList == old(cg.adjList) && cg.degree == old(cg.degree)
    ensures !joined ==> forest.root == old(forest.root)
    ensures Coarser(old(forest.root), forest.root) && FromEdges(old(cg.adj), forest.root, cg.adj)
    ensures MoveTried(g, consts, cg.adj, forest.root, pre, n)
    ensures forall m: nat :: MoveTried(g, consts, old(cg.adj), old(forest.root), pre, m) ==>
      MoveTried(g, consts, cg.adj, forest.root, pre, m)
  {
    hide MoveTried, FromEdges, Kept, Coarser, Joinable;
    var u, v := g.nodes[n].vreg, g.MoveSource(n);
    ghost var adj0, root0 := cg.adj, forest.root;
    if v != NO_REG && u !in consts && v !in consts {
      joined := Join(u, v, pre, cg, forest, consts, used);
      AllStayTried(g, consts, adj0, root0, cg.adj, forest.root, pre, used);
    } else {
      joined := false;
      EdgesFromThemselves(cg.adj, forest.root);
    }
    NowTried(g, consts, cg.adj, forest.root, pre, n);
  }

  lemma KeptAtFirst(adj: set<(int, int)>, root: seq<int>, pre: seq<int>, consts: set<int>, used: set<int>)
    requires |pre| == |root| && forall i :: 0 <= i < |root| ==> root[i] == i
    requires forall a, b :: (a, b) in adj ==> 0 <= a < |root| && 0 <= b < |root|
    ensures Kept(adj, root, pre, consts, used) && FromEdges(adj, root, adj)
  {
    EdgesFromThemselves(adj, root);
  }

  lemma NothingTried<V>(g: Graph<V>, consts: set<int>, adj: set<(int, int)>, root: seq<int>, pre: seq<int>)
    ensures TriedUpTo(g, consts, adj, root, pre, 0, 0)
  {
  }

  lemma EdgesFromThemselves(adj: set<(int, int)>, root: seq<int>)
    requires forall a, b :: (a, b) in adj ==> 0 <= a < |root| && 0 <= b < |root|
    requires forall i :: 0 <= i < |root| ==> 0 <= root[i] < |root| && root[root[i]] == root[i]
    ensures FromEdges(adj, root, adj) && Coarser(root, root)
  {
    forall a, b | (a, b) in adj ensures Between(adj, root, a, b) { assert Members(root, a, a) && Members(root, b, b); }
  }

  lemma AllStayTried<V>(g: Graph<V>, consts: set<int>, adj0: set<(int, int)>, root0: seq<int>, adj: set<(int, int)>,
                        root: seq<int>, pre: seq<int>, used: set<int>)
    requires Kept(adj0, root0, pre, consts, used) && Kept(adj, root, pre, consts, used) && adj0 <= adj
    requires Coarser(root0, root)
    ensures forall n: nat :: MoveTried(g, consts, adj0, root0, pre, n) ==> MoveTried(g, consts, adj, root, pre, n)
  {
    hide Tried, Kept, Coarser;
    forall n: nat | MoveTried(g, consts, adj0, root0, pre, n) ensures MoveTried(g, consts, adj, root, pre, n) {
      if n < |g.nodes| && Tried(adj0, root0, pre, g.nodes[n].vreg, g.MoveSource(n)) {
        StaysTried(adj0, root0, adj, root, pre, consts, used, g.nodes[n].vreg, g.MoveSource(n));
      }
    }
  }

  lemma NowTried<V>(g: Graph<V>, consts: set<int>, adj: set<(int, int)>, root: seq<int>, pre: seq<int>, n: nat)
    requires n < |g.nodes|
    requires g.MoveSource(n) != NO_REG && g.MoveSource(n) !in consts && g.nodes[n].vreg !in consts ==>
      Tried(adj, root, pre, g.nodes[n].vreg, g.MoveSource(n))
    ensures MoveTried(g, consts, adj, root, pre, n)
  {
  }

  /** One Move: joins the classes of `u` and `v` unless they clash or are bound to different slots. */
  method Join(u: int, v: int, pre: seq<int>, cg: ConflictGraph, forest: AliasForest, consts: set<int>,
              ghost used: set<int>)
    returns (joined: bool)
    requires cg.Valid() && forest.Valid() && |pre| == cg.size == forest.size
    requires 0 <= u < cg.size && 0 <= v < cg.size && u !in consts && v !in consts && u in used && v in used
    requires DistinctPrecolours(pre) && Kept(cg.adj, forest.root, pre, consts, used)
    modifies cg, forest
    ensures cg.Valid() && forest.Valid() && Kept(cg.adj, forest.root, pre, consts, used) && old(cg.adj) <= cg.adj
    ensures !joined ==> cg.adj == old(cg.adj) && cg.adjList == old(cg.adjList) && cg.degree == old(cg.degree)
    ensures !joined ==> forest.root == old(forest.root)
    ensures joined ==> forest.root[u] == forest.root[v]
    ensures Coarser(old(forest.root), forest.root) && Tried(cg.adj, forest.root, pre, u, v)
    ensures FromEdges(old(cg.adj), forest.root, cg.adj)
    ensures joined <==> Joinable(old(cg.adj), old(forest.root[u]), old(forest.root[v]), pre)
  {
    var rootU := forest.Find(u);
    var rootV := forest.Find(v);
    if rootU == rootV || (rootU, rootV) in cg.adj {
      return false;
    }
    if pre[rootU] != -1 && pre[rootV] != -1 && pre[rootU] != pre[rootV] {
      return false;
    }
    if pre[rootV] != -1 && pre[rootU] == -1 {
      rootU, rootV := rootV, rootU;
    }
    ghost var root0 := forest.root;
    LinkClasses(rootU, rootV, pre, cg, forest, consts, used);
    RedirectCoarser(root0, rootV, rootU);
    joined := true;
  }

  lemma RedirectCoarser(root0: seq<int>, v: int, u: int)
    requires forall i :: 0 <= i < |root0| ==> 0 <= root0[i] < |root0| && root0[root0[i]] == root0[i]
    requires 0 <= u < |root0| && 0 <= v < |root0| && u != v && root0[u] == u && root0[v] == v
    ensures Coarser(root0, Redirect(root0, v, u))
    ensures forall x :: 0 <= x < |root0| && root0[x] == v ==> Redirect(root0, v, u)[x] == u
    ensures forall x :: 0 <= x < |root0| && root0[x] == u ==> Redirect(root0, v, u)[x] == u
  {
  }

  /** The class `v` joins the class `u`, with its edges. */
  method LinkClasses(u: int, v: int, pre: seq<int>, cg: ConflictGraph, forest: AliasForest, consts: set<int>,
                     ghost used: set<int>)
    requires cg.Valid() && forest.Valid() && |pre| == cg.size == forest.size
    requires 0 <= u < cg.size && 0 <= v < cg.size && u !in consts && v !in consts && u in used
    requires u != v && (u, v) !in cg.adj && forest.root[u] == u && forest.root[v] == v && pre[v] == -1
    requires Kept(cg.adj, forest.root, pre, consts, used)
    modifies cg, forest
    ensures cg.Valid() && forest.Valid() && forest.root == Redirect(old(forest.root), v, u)
    ensures Kept(cg.adj, forest.root, pre, consts, used) && old(cg.adj) <= cg.adj
    ensures FromEdges(old(cg.adj), forest.root, cg.adj)
  {
    hide FromEdges, Kept;
    ghost var adj0, root0 := cg.adj, forest.root;
    forest.Link(v, u);
    MoveEdges(u, v, cg, forest);
    assert Kept(cg.adj, forest.root, pre, consts, used) by {
      JoinKeeps(adj0, root0, u, v, cg.adj, pre, consts, used);
    }
    assert FromEdges(adj0, forest.root, cg.adj) by { InheritedFrom(adj0, forest.root, u, v, cg.adj); }
    forall e | e in adj0 ensures e in cg.adj {
      assert e == (e.0, e.1) && Inherited(adj0, forest.root, u, v, e.0, e.1);
    }
  }

  predicate Joinable(adj: set<(int, int)>, u: int, v: int, pre: seq<int>) {
    u != v && (u, v) !in adj && 0 <= u < |pre| && 0 <= v < |pre| && (pre[u] == -1 || pre[v] == -1)
  }

  /** `b` is the class of a neighbour of `v`. */
  ghost predicate Beside(adj: set<(int, int)>, root: seq<int>, v: int, b: int) {
    exists w :: (v, w) in adj && 0 <= w < |root| && root[w] == b
  }

  /** The edges of `adj`, and those that the class `u` inherits from `v`. */
  ghost predicate Inherited(adj: set<(int, int)>, root: seq<int>, u: int, v: int, a: int, b: int) {
    (a, b) in adj || (a == u && b != u && Beside(adj, root, v, b)) || (b == u && a != u && Beside(adj, root, v, a))
  }

  /** Gives `u` an edge to the class of every neighbour of the class `v` that was just joined to it. */
  method MoveEdges(u: int, v: int, cg: ConflictGraph, forest: AliasForest)
    requires cg.Valid() && forest.Valid() && cg.size == forest.size
    requires 0 <= u < cg.size && 0 <= v < cg.size && forest.root[u] == u
    modifies cg, forest
    ensures cg.Valid() && forest.Valid() && forest.root == old(forest.root)
    ensures forall a, b :: (a, b) in cg.adj <==> Inherited(old(cg.adj), forest.root, u, v, a, b)
  {
    ghost var adj0 := cg.adj;
    var neighbours := cg.adjList[v];
    assert forall w :: w in neighbours <==> (v, w) in adj0;
    for i := 0 to |neighbours|
      invariant cg.Valid() && forest.Valid() && forest.root == old(forest.root)
      invariant forall a, b :: (a, b) in cg.adj <==>
        (a, b) in adj0 || (a == u && b != u && Among(neighbours[..i], forest.root, b)) ||
          (b == u && a != u && Among(neighbours[..i], forest.root, a))
    {
      var w := neighbours[i];
      assert w in neighbours;
      AmongMore(neighbours[..i], forest.root, w);
      assert neighbours[..i + 1] == neighbours[..i] + [w];
      var r := forest.Find(w);
      if r != u {
        cg.AddEdge(u, r);
      }
    }
    assert neighbours[..|neighbours|] == neighbours;
    forall b ensures Among(neighbours, forest.root, b) <==> Beside(adj0, forest.root, v, b) { }
  }

  ghost predicate Among(ws: seq<int>, root: seq<int>, b: int) {
    exists w :: w in ws && 0 <= w < |root| && root[w] == b
  }

  lemma AmongMore(ws: seq<int>, root: seq<int>, w: int)
    requires 0 <= w < |root|
    ensures forall b :: Among(ws + [w], root, b) <==> Among(ws, root, b) || b == root[w]
  {
    assert forall x :: x in ws + [w] <==> x in ws || x == w;
    forall b ensures Among(ws + [w], root, b) <==> Among(ws, root, b) || b == root[w] {
      if b == root[w] {
        assert w in ws + [w];
      }
    }
  }

  /** Joining class `v` to class `u` keeps every edge visible between roots, and all the rest of `Kept`. */
  lemma JoinKeeps(adj0: set<(int, int)>, root0: seq<int>, u: int, v: int, adj: set<(int, int)>,
                  pre: seq<int>, consts: set<int>, used: set<int>)
    requires Kept(adj0, root0, pre, consts, used) && (forall i :: 0 <= i < |root0| ==> root0[root0[i]] == root0[i])
    requires 0 <= u < |root0| && 0 <= v < |root0| && u != v && root0[u] == u && root0[v] == v
    requires (u, v) !in adj0 && u !in consts && v !in consts && pre[v] == -1 && u in used
    requires forall a, b :: (a, b) in adj0 ==> (b, a) in adj0 && a != b && 0 <= a < |root0| && 0 <= b < |root0|
    requires forall a, b :: (a, b) in adj <==> Inherited(adj0, Redirect(root0, v, u), u, v, a, b)
    ensures Kept(adj, Redirect(root0, v, u), pre, consts, used)
  {
    var root := Redirect(root0, v, u);
    forall a, b | (a, b) in adj && 0 <= a < |root| && 0 <= b < |root| ensures (root[a], root[b]) in adj {
      if (a, b) in adj0 {
        OldEdgeFollows(adj0, root0, u, v, root, a, b);
      } else if a == u {
        var w :| (v, w) in adj0 && 0 <= w < |root| && root[w] == b;
      } else {
        var w :| (v, w) in adj0 && 0 <= w < |root| && root[w] == a;
      }
    }
  }

  lemma OldEdgeFollows(adj0: set<(int, int)>, root0: seq<int>, u: int, v: int, root: seq<int>, a: int, b: int)
    requires EdgesFollowRoots(adj0, root0) && root == Redirect(root0, v, u)
    requires forall i :: 0 <= i < |root0| ==> 0 <= root0[i] < |root0| && root0[root0[i]] == root0[i]
    requires 0 <= u < |root0| && 0 <= v < |root0| && u != v && root0[u] == u && root0[v] == v && (u, v) !in adj0
    requires forall a, b :: (a, b) in adj0 ==> (b, a) in adj0 && a != b
    requires (a, b) in adj0 && 0 <= a < |root0| && 0 <= b < |root0|
    ensures Inherited(adj0, root, u, v, root[a], root[b])
  {
    var ra, rb := root0[a], root0[b];
    assert (ra, rb) in adj0 && (rb, ra) in adj0;
    if ra == v {
      assert rb != v && rb != u && root[rb] == rb;
    } else if rb == v {
      assert ra != u && root[ra] == ra;
    }
  }
}
