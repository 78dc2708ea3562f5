/** RegisterAllocator::allocate from liveness to physical registers (src/compiler/RegisterAllocator.cpp:217-561). */
module RegisterAllocator {
  import opened AllocatorIR
  import opened Liveness
  import opened Interference
  import opened Coalescing
  import opened Colouring

  /** What the allocator hands over: each register's location (-1: none) and the liveness it rests on. */
  datatype Allocation = Allocation(color: seq<int>, extra: seq<set<nat>>, liveIn: seq<set<int>>, liveOut: seq<set<int>>)

  /** Some block reads or writes register `v`. */
  ghost predicate Touched(use: seq<set<int>>, def: seq<set<int>>, v: int) {
    exists b :: 0 <= b < |use| && b < |def| && (v in use[b] || v in def[b])
  }

  ghost function Used(use: seq<set<int>>, def: seq<set<int>>, n: nat): (r: set<int>)
    ensures forall v :: v in r <==> 0 <= v < n && Touched(use, def, v)
  {
    set v | 0 <= v < n && Touched(use, def, v)
  }

  /** Register `v` is read or written by some placed instruction, and is no pool constant. */
  ghost predicate Occurs<V>(g: Graph<V>, consts: set<int>, v: int) {
    && v !in consts
    && exists b, k :: 0 <= b < |g.blocks| && 0 <= k < |g.blocks[b].instructions|
                      && Mentions(g, consts, g.blocks[b].instructions[k], v)
  }

  predicate Mentions<V>(g: Graph<V>, consts: set<int>, n: nat, v: int) {
    v in g.Reads(consts, n) || v in g.Writes(n)
  }

  /** Clashing registers have different locations. */
  ghost predicate ClashesApart<V>(g: Graph<V>, consts: set<int>, liveOut: seq<set<int>>, color: seq<int>) {
    forall u, v ::
      Clash(g, consts, liveOut, u, v) && 0 <= u < |color| && 0 <= v < |color| && color[u] != -1 && color[v] != -1 ==>
        color[u] != color[v]
  }

  /** Everything that occurs has a location, parameters sit in their slots and pool constants nowhere. */
  ghost predicate Placed<V>(g: Graph<V>, consts: set<int>, color: seq<int>) {
    && Bounded(g, |color|)
    && (forall v :: 0 <= v < |color| && Occurs(g, consts, v) ==> color[v] >= 0)
    && (forall n :: 0 <= n < |g.nodes| && g.IsParameter(n) && 0 <= g.nodes[n].vreg < |color| ==>
         color[g.nodes[n].vreg] == g.nodes[n].payload)
    && (forall v :: v in consts && 0 <= v < |color| ==> color[v] == -1)
  }

  /** Live sets that agree with the code and grow along every way out of a block. */
  ghost predicate FlowsLive<V>(g: Graph<V>, consts: set<int>, a: Allocation) {
    && |a.extra| == |a.liveIn| == |a.liveOut| == |g.blocks|
    && (forall b, s: nat :: 0 <= b < |g.blocks| && s < |g.blocks| && Flows(g, a.extra, b, s) ==>
         a.liveIn[s] <= a.liveOut[b])
    && (forall b :: 0 <= b < |g.blocks| ==> a.liveIn[b] == Use(g, consts, b) + (a.liveOut[b] - Def(g, consts, b)))
  }

  /** A register is live at the end of a block only if some successor wants it. */
  ghost predicate NothingSpurious<V>(g: Graph<V>, a: Allocation) {
    |a.liveIn| == |a.liveOut| == |g.blocks| && forall b, v :: 0 <= b < |g.blocks| && v in a.liveOut[b] ==>
      Wanted(g, a, b, v)
  }

  ghost predicate Wanted<V>(g: Graph<V>, a: Allocation, b: nat, v: int) {
    exists s: nat :: s < |a.liveIn| && Flows(g, a.extra, b, s) && v in a.liveIn[s]
  }

  /** The promises of an allocation. */
  ghost predicate Faithful<V>(g: Graph<V>, consts: set<int>, a: Allocation) {
    && FlowsLive(g, consts, a) && Placed(g, consts, a.color) && ClashesApart(g, consts, a.liveOut, a.color)
    && (forall b, v :: 0 <= b < |a.liveOut| && v in a.liveOut[b] ==> Occurs(g, consts, v))
  }

  /** numVRegs. */
  method CountRegisters<V>(g: Graph<V>) returns (n: nat)
    requires g.Valid()
    ensures Bounded(g, n)
  {
    n := 0;
    for i := 0 to |g.nodes|
      invariant forall j :: 0 <= j < i ==> g.nodes[j].vreg < n
    {
      if g.nodes[i].vreg >= n {
        n := g.nodes[i].vreg + 1;
      }
    }
  }

  /** isUncoloredConst. */
  method FindPlainConstants<V>(g: Graph<V>) returns (consts: set<int>)
    requires g.Valid()
    ensures consts == g.PlainConstants()
  {
    consts := {};
    for i := 0 to |g.nodes|
      invariant forall v :: v in consts <==> exists j :: 0 <= j < i && g.IsPlainConstant(j) && g.nodes[j].vreg == v
    {
      if g.nodes[i].op.Constant? && g.nodes[i].vreg != NO_REG && i !in g.captured {
        consts := consts + {g.nodes[i].vreg};
      }
    }
    forall v ensures v in consts <==> v in g.PlainConstants() { }
  }

  /** Binds every parameter to its slot. */
  method Precolour<V>(g: Graph<V>, n: nat) returns (pre: seq<int>)
    requires g.Valid() && Bounded(g, n)
    ensures |pre| == n && DistinctPrecolours(pre)
    ensures forall v :: 0 <= v < n ==> pre[v] >= -1
    ensures forall v :: 0 <= v < n && pre[v] != -1 ==>
      exists i :: 0 <= i < |g.nodes| && g.IsParameter(i) && g.nodes[i].vreg == v && g.nodes[i].payload == pre[v]
    ensures forall i :: 0 <= i < |g.nodes| && g.IsParameter(i) ==> pre[g.nodes[i].vreg] == g.nodes[i].payload
  {
    pre := seq(n, _ => -1);
    for i := 0 to |g.nodes|
      invariant |pre| == n
      invariant forall v :: 0 <= v < n ==> pre[v] >= -1
      invariant forall v :: 0 <= v < n && pre[v] != -1 ==>
        exists j :: 0 <= j < i && g.IsParameter(j) && g.nodes[j].vreg == v && g.nodes[j].payload == pre[v]
      invariant forall j :: 0 <= j < i && g.IsParameter(j) ==> pre[g.nodes[j].vreg] == g.nodes[j].payload
    {
      if g.nodes[i].op.Parameter? && g.nodes[i].vreg != NO_REG {
        pre := pre[g.nodes[i].vreg := g.nodes[i].payload];
      }
    }
  }

  /** The nodes that take no part in simplification: pool constants, joined registers, parameters, unused registers. */
  method MarkRemoved(n: nat, consts: set<int>, root: seq<int>, pre: seq<int>, use: seq<set<int>>, def: seq<set<int>>)
    returns (removed: seq<bool>)
    requires |root| == |pre| == n && |use| == |def|
    ensures |removed| == n
    ensures forall i :: 0 <= i < n ==>
      (removed[i] <==> i in consts || root[i] != i || pre[i] != -1 || !Touched(use, def, i))
  {
    removed := [];
    for i := 0 to n
      invariant |removed| == i
      invariant forall j :: 0 <= j < i ==>
        (removed[j] <==> j in consts || root[j] != j || pre[j] != -1 || !Touched(use, def, j))
    {
      var isUsed := false;
      for b := 0 to |use|
        invariant isUsed <==> exists c :: 0 <= c < b && (i in use[c] || i in def[c])
      {
        if i in def[b] || i in use[b] {
          isUsed := true;
        }
      }
      removed := removed + [i in consts || root[i] != i || pre[i] != -1 || !isUsed];
    }
  }

  /** getAlias for every register. */
  method Roots(forest: AliasForest) returns (root: seq<int>)
    requires forest.Valid()
    modifies forest
    ensures forest.Valid() && forest.root == old(forest.root) && root == forest.root
  {
    root := [];
    for i := 0 to forest.size
      invariant forest.Valid() && forest.root == old(forest.root) && root == forest.root[..i]
    {
      var r := forest.Find(i);
      root := root + [r];
    }
    assert forest.root[..forest.size] == forest.root;
  }

  // ----- Liveness facts that colouring needs -----

  lemma HandlersAreBlocks<V>(g: Graph<V>, extra: seq<set<nat>>)
    requires g.Valid() && |extra| == |g.blocks|
    requires forall c, h: nat :: 0 <= c < |g.blocks| ==> (h in extra[c] <==> Guards(g, h, c))
    ensures forall c, h :: 0 <= c < |g.blocks| && h in extra[c] ==> h < |g.blocks|
  {
    forall c, h | 0 <= c < |g.blocks| && h in extra[c] ensures h < |g.blocks| {
      assert Guards(g, h, c);
    }
  }

  lemma {:induction false} ScanBounded<V>(g: Graph<V>, consts: set<int>, b: nat, k: nat, n: nat)
    requires g.Valid() && Bounded(g, n) && k <= |g.Instructions(b)|
    ensures forall v :: v in UsesUpTo(g, consts, b, k) || v in DefsUpTo(g, consts, b, k) ==> 0 <= v < n && v !in consts
  {
    if k > 0 {
      ScanBounded(g, consts, b, k - 1, n);
    }
  }

  lemma {:induction false} ScanGrows<V>(g: Graph<V>, consts: set<int>, b: nat, k: nat, m: nat)
    requires k <= m <= |g.Instructions(b)|
    ensures UsesUpTo(g, consts, b, k) <= UsesUpTo(g, consts, b, m)
    ensures DefsUpTo(g, consts, b, k) <= DefsUpTo(g, consts, b, m)
    decreases m
  {
    if k < m {
      ScanGrows(g, consts, b, k, m - 1);
    }
  }

  /** An instruction's registers show up in its block's use or def set. */
  lemma MentionedIsTouched<V>(g: Graph<V>, consts: set<int>, use: seq<set<int>>, def: seq<set<int>>, b: nat, k: nat,
                              v: int)
    requires b < |g.blocks| == |use| == |def| && k < |g.blocks[b].instructions| && v !in consts
    requires use[b] == Use(g, consts, b) && def[b] == Def(g, consts, b)
    requires Mentions(g, consts, g.blocks[b].instructions[k], v)
    ensures Touched(use, def, v)
  {
    ScanGrows(g, consts, b, k, |g.Instructions(b)|);
    ScanGrows(g, consts, b, k + 1, |g.Instructions(b)|);
    assert v in UsesUpTo(g, consts, b, k + 1) || v in DefsUpTo(g, consts, b, k) || v in DefsUpTo(g, consts, b, k + 1);
  }

  lemma {:induction false} UseOccurs<V>(g: Graph<V>, consts: set<int>, b: nat, k: nat, v: int)
    requires g.Valid() && b < |g.blocks| && k <= |g.Instructions(b)| && v in UsesUpTo(g, consts, b, k)
    ensures Occurs(g, consts, v)
  {
    if k > 0 && v in UsesUpTo(g, consts, b, k - 1) {
      UseOccurs(g, consts, b, k - 1, v);
    } else {
      assert Mentions(g, consts, g.blocks[b].instructions[k - 1], v);
    }
  }

  lemma LiveMeansUsed<V>(g: Graph<V>, consts: set<int>, use: seq<set<int>>, liveOut: seq<set<int>>)
    requires g.Valid() && |use| == |liveOut| == |g.blocks|
    requires forall b :: 0 <= b < |g.blocks| ==> use[b] == Use(g, consts, b)
    requires forall b, v :: 0 <= b < |g.blocks| && v in liveOut[b] ==> exists c :: 0 <= c < |use| && v in use[c]
    requires g.PlainConstants() == consts
    ensures forall b, v :: 0 <= b < |liveOut| && v in liveOut[b] ==> Occurs(g, consts, v)
  {
    hide UsesUpTo, Occurs;
    forall b, v | 0 <= b < |liveOut| && v in liveOut[b] ensures Occurs(g, consts, v) {
      var c :| 0 <= c < |use| && v in use[c];
      UseOccurs(g, consts, c, |g.Instructions(c)|, v);
    }
  }

  lemma RegistersBounded<V>(g: Graph<V>, consts: set<int>, use: seq<set<int>>, liveOut: seq<set<int>>, n: nat)
    requires g.Valid() && Bounded(g, n) && |use| == |liveOut| == |g.blocks|
    requires forall b :: 0 <= b < |g.blocks| ==> use[b] == Use(g, consts, b)
    requires forall b, v :: 0 <= b < |g.blocks| && v in liveOut[b] ==> exists c :: 0 <= c < |use| && v in use[c]
    ensures forall b, v :: 0 <= b < |g.blocks| && v in liveOut[b] ==> 0 <= v < n
  {
    forall b, v | 0 <= b < |g.blocks| && v in liveOut[b] ensures 0 <= v < n {
      var c :| 0 <= c < |use| && v in use[c];
      ScanBounded(g, consts, c, |g.Instructions(c)|, n);
    }
  }

  lemma MoveEndsUsed<V>(g: Graph<V>, consts: set<int>, use: seq<set<int>>, def: seq<set<int>>, n: nat)
    requires g.Valid() && Bounded(g, n) && |use| == |def| == |g.blocks|
    requires forall b :: 0 <= b < |g.blocks| ==> use[b] == Use(g, consts, b) && def[b] == Def(g, consts, b)
    ensures MovesUsed(g, consts, Used(use, def, n))
  {
    forall b, k | 0 <= b < |g.blocks| && 0 <= k < |g.blocks[b].instructions|
      ensures MoveUsed(g, consts, Used(use, def, n), g.blocks[b].instructions[k])
    {
      var i := g.blocks[b].instructions[k];
      var u, v := g.nodes[i].vreg, g.MoveSource(i);
      if v != NO_REG && u !in consts && v !in consts {
        assert v in g.Reads(consts, i) by { assert g.nodes[g.nodes[i].inputs[0]].vreg == v; }
        MentionedIsTouched(g, consts, use, def, b, k, u);
        MentionedIsTouched(g, consts, use, def, b, k, v);
      }
    }
  }

  // ----- The contracted graph -----

  ghost function RootSet(root: seq<int>): (r: set<int>)
    ensures forall i :: i in r <==> 0 <= i < |root| && root[i] == i
  {
    set i | 0 <= i < |root| && root[i] == i
  }

  /** The lists of the class representatives hold exactly the representatives they clash with. */
  ghost predicate ListsOf(adjList: seq<seq<int>>, adj: set<(int, int)>, root: seq<int>) {
    |adjList| == |root| &&
    forall i :: 0 <= i < |root| && root[i] == i ==>
      NoDuplicates(adjList[i]) && forall j :: j in adjList[i] <==> 0 <= j < |root| && root[j] == j && (i, j) in adj
  }

  ghost predicate IsEdgeSet(adj: set<(int, int)>, n: nat) {
    forall u, v :: (u, v) in adj ==> (v, u) in adj && u != v && 0 <= u < n && 0 <= v < n
  }

  lemma ContractedLists(adj: set<(int, int)>, cgAdj: seq<seq<int>>, root: seq<int>, adjList: seq<seq<int>>)
    requires IsEdgeSet(adj, |root|) && EdgesFollowRoots(adj, root) && |cgAdj| == |root| == |adjList|
    requires forall i :: 0 <= i < |root| ==> 0 <= root[i] < |root| && root[root[i]] == root[i]
    requires forall i, j :: 0 <= i < |root| ==> (j in cgAdj[i] <==> (i, j) in adj)
    requires forall i :: 0 <= i < |root| && root[i] == i ==> Contracted(cgAdj[i], root, i, adjList[i])
    ensures ListsOf(adjList, adj, root)
  {
    forall i, j | 0 <= i < |root| && root[i] == i
      ensures j in adjList[i] <==> 0 <= j < |root| && root[j] == j && (i, j) in adj
    {
      if j in adjList[i] {
        var w :| w in cgAdj[i] && 0 <= w < |root| && root[w] == j;
        assert (root[i], root[w]) in adj;
      }
    }
  }

  lemma GoodListsOf(adjList: seq<seq<int>>, adj: set<(int, int)>, root: seq<int>)
    requires ListsOf(adjList, adj, root) && IsEdgeSet(adj, |root|)
    ensures GoodLists(adjList, RootSet(root))
  {
  }

  /** color[i] = color[root of i]. */
  method Backfill(color: seq<int>, root: seq<int>) returns (final: seq<int>)
    requires |color| == |root| && forall i :: 0 <= i < |root| ==> 0 <= root[i] < |root| && root[root[i]] == root[i]
    ensures |final| == |color|
    ensures forall i :: 0 <= i < |color| ==> final[i] == if color[root[i]] != -1 then color[root[i]] else color[i]
  {
    final := color;
    for i := 0 to |color|
      invariant |final| == |color|
      invariant forall j :: 0 <= j < i ==> final[j] == if color[root[j]] != -1 then color[root[j]] else color[j]
      invariant forall j :: i <= j < |color| ==> final[j] == color[j]
      invariant forall j :: 0 <= j < |color| && root[j] == j ==> final[j] == color[j]
    {
      if final[root[i]] != -1 {
        final := final[i := final[root[i]]];
      }
    }
  }

  /** What the colouring phases establish about the classes. */
  ghost predicate ClassesColoured(adj: set<(int, int)>, root: seq<int>, pre: seq<int>, color: seq<int>, final: seq<int>,
                                  order: seq<int>, adjList: seq<seq<int>>) {
    && |adjList| == |root| == |pre| == |color| == |final|
    && (forall i :: 0 <= i < |root| ==> 0 <= root[i] < |root| && root[root[i]] == root[i])
    && ListsOf(adjList, adj, root) && IsEdgeSet(adj, |root|) && EdgesFollowRoots(adj, root)
    && PrecolourKept(pre, root) && DistinctPrecolours(pre)
    && Proper(adjList, color, Elements(order))
    && (forall v :: 0 <= v < |pre| && v !in order ==> color[v] == pre[v])
    && (forall v :: v in order ==> 0 <= v < |root| && root[v] == v && pre[v] == -1)
    && (forall i :: 0 <= i < |color| ==> final[i] == if color[root[i]] != -1 then color[root[i]] else color[i])
  }

  /** Every register ends up where its class is. */
  lemma FinalOfRoot(adj: set<(int, int)>, root: seq<int>, pre: seq<int>, color: seq<int>, final: seq<int>,
                    order: seq<int>, adjList: seq<seq<int>>, i: int)
    requires ClassesColoured(adj, root, pre, color, final, order, adjList) && 0 <= i < |root|
    ensures final[i] == color[root[i]]
  {
    hide Proper, ListsOf, EdgesFollowRoots;
  }

  /** The two ends of an edge are in different locations. */
  lemma EdgeApart(adj: set<(int, int)>, root: seq<int>, pre: seq<int>, color: seq<int>, final: seq<int>,
                  order: seq<int>, adjList: seq<seq<int>>, u: int, v: int)
    requires ClassesColoured(adj, root, pre, color, final, order, adjList) && (u, v) in adj
    requires 0 <= u < |root| && 0 <= v < |root| && final[u] != -1 && final[v] != -1
    ensures final[u] != final[v]
  {
    FinalOfRoot(adj, root, pre, color, final, order, adjList, u);
    FinalOfRoot(adj, root, pre, color, final, order, adjList, v);
    var ru, rv := root[u], root[v];
    assert (ru, rv) in adj && (rv, ru) in adj;
    assert rv in adjList[ru] && ru in adjList[rv];
    if ru in order {
      assert ru in Elements(order);
    } else if rv in order {
      assert rv in Elements(order);
    } else {
      assert color[ru] == pre[ru] && color[rv] == pre[rv];
    }
  }

  /** Simplify and select, on the graph of the classes. */
  method ColourClasses(adjList: seq<seq<int>>, degree: seq<int>, removed: seq<bool>, root: seq<int>, pre: seq<int>,
                       hints: seq<seq<int>>, ghost adj: set<(int, int)>)
    returns (final: seq<int>, ghost order: seq<int>, ghost color: seq<int>)
    requires |degree| == |removed| == |pre| == |root| && HintsBounded(hints, |root|)
    requires ListsOf(adjList, adj, root) && IsEdgeSet(adj, |root|) && EdgesFollowRoots(adj, root)
    requires forall i :: 0 <= i < |root| ==> 0 <= root[i] < |root| && root[root[i]] == root[i]
    requires forall i :: 0 <= i < |root| && root[i] == i ==> degree[i] == |adjList[i]|
    requires PrecolourKept(pre, root) && DistinctPrecolours(pre) && forall v :: 0 <= v < |pre| ==> pre[v] >= -1
    requires forall i :: 0 <= i < |root| && !removed[i] ==> root[i] == i && pre[i] == -1
    ensures ClassesColoured(adj, root, pre, color, final, order, adjList)
    ensures forall i :: 0 <= i < |root| && !removed[i] ==> i in order
    ensures forall i :: i in order ==> 0 <= i < |removed| && !removed[i]
    ensures forall i :: i in order ==> 0 <= i < |color| && color[i] >= 0
    ensures forall t :: 0 <= t < |order| ==> Simplified(adjList, order, t) || Stuck(adjList, order, t)
    ensures forall t :: 0 <= t < |order| && 0 <= order[t] < |color| && Simplified(adjList, order, t) ==>
      color[order[t]] < K
    ensures forall i :: i in order ==> WellChosen(adjList, hints, color, i)
  {
    hide Simplified, Stuck, WellChosen;
    var active := RootSet(root);
    GoodListsOf(adjList, adj, root);
    forall i | i in Remaining(removed) ensures i in active { }
    var stack := Simplify(adjList, degree, removed, active);
    order := stack;
    forall i ensures i in order <==> 0 <= i < |removed| && !removed[i] {
      assert i in Elements(order) <==> i in Remaining(removed);
    }
    forall t | 0 <= t < |order| ensures 0 <= order[t] < |pre| && pre[order[t]] == -1 { assert order[t] in order; }
    var chosen := Select(adjList, stack, pre, hints, active);
    color := chosen;
    forall i | i in order ensures color[i] >= 0 && WellChosen(adjList, hints, color, i) {
      var t :| 0 <= t < |order| && order[t] == i;
    }
    final := Backfill(chosen, root);
  }

  /** A colouring of the classes is a placement of the registers. */
  lemma PlacedByClasses<V>(g: Graph<V>, consts: set<int>, use: seq<set<int>>, def: seq<set<int>>, adj: set<(int, int)>,
                           root: seq<int>, pre: seq<int>, color: seq<int>, final: seq<int>, order: seq<int>,
                           adjList: seq<seq<int>>, removed: seq<bool>)
    requires g.Valid() && Bounded(g, |root|) && consts == g.PlainConstants()
    requires |use| == |def| == |g.blocks| && |removed| == |root|
    requires forall b :: 0 <= b < |g.blocks| ==> use[b] == Use(g, consts, b) && def[b] == Def(g, consts, b)
    requires ClassesColoured(adj, root, pre, color, final, order, adjList)
    requires Alone(consts, root) && RootsUsed(Used(use, def, |root|), root)
    requires forall v :: 0 <= v < |pre| && pre[v] != -1 ==>
      exists i :: 0 <= i < |g.nodes| && g.IsParameter(i) && g.nodes[i].vreg == v && g.nodes[i].payload == pre[v]
    requires forall i :: 0 <= i < |g.nodes| && g.IsParameter(i) ==>
      0 <= g.nodes[i].vreg < |pre| && pre[g.nodes[i].vreg] == g.nodes[i].payload
    requires forall i :: 0 <= i < |root| ==>
      (removed[i] <==> i in consts || root[i] != i || pre[i] != -1 || !Touched(use, def, i))
    requires forall i :: 0 <= i < |root| ==> (i in order <==> !removed[i])
    requires forall i :: i in order ==> 0 <= i < |color| && color[i] >= 0
    requires forall v :: 0 <= v < |pre| ==> pre[v] >= -1
    ensures Placed(g, consts, final)
  {
    hide ListsOf, Proper, EdgesFollowRoots, IsEdgeSet;
    forall v | 0 <= v < |final| && Occurs(g, consts, v) ensures final[v] >= 0 {
      FinalOfRoot(adj, root, pre, color, final, order, adjList, v);
      var b, k :| 0 <= b < |g.blocks| && 0 <= k < |g.blocks[b].instructions| &&
        Mentions(g, consts, g.blocks[b].instructions[k], v);
      MentionedIsTouched(g, consts, use, def, b, k, v);
      assert v in Used(use, def, |root|);
      var r := root[v];
      assert r in Used(use, def, |root|) && r !in consts;
      if r in order {
      } else {
        assert pre[r] != -1;
      }
    }
    forall n | 0 <= n < |g.nodes| && g.IsParameter(n) ensures final[g.nodes[n].vreg] == g.nodes[n].payload {
      var v := g.nodes[n].vreg;
      FinalOfRoot(adj, root, pre, color, final, order, adjList, v);
      assert root[v] == v && v !in order;
    }
    forall v | v in consts && 0 <= v < |final| ensures final[v] == -1 {
      FinalOfRoot(adj, root, pre, color, final, order, adjList, v);
      assert root[v] == v && v !in order;
      if pre[v] != -1 {
        ParameterIsNoConstant(g, consts, v, pre[v]);
      }
    }
  }

  lemma ParameterIsNoConstant<V>(g: Graph<V>, consts: set<int>, v: int, slot: int)
    requires g.Valid() && consts == g.PlainConstants()
    requires exists i :: 0 <= i < |g.nodes| && g.IsParameter(i) && g.nodes[i].vreg == v && g.nodes[i].payload == slot
    ensures v !in consts
  {
    var i :| 0 <= i < |g.nodes| && g.IsParameter(i) && g.nodes[i].vreg == v && g.nodes[i].payload == slot;
    if v in consts {
      ConstantsReadNothing(g, consts, i);
    }
  }

  /** The interference graph, contracted to the classes that coalescing made. */
  method BuildClasses<V>(g: Graph<V>, consts: set<int>, use: seq<set<int>>, def: seq<set<int>>, liveOut: seq<set<int>>,
                         n: nat)
    returns (adjList: seq<seq<int>>, degree: seq<int>, root: seq<int>, pre: seq<int>, hints: seq<seq<int>>,
      ghost adj: set<(int, int)>)
    requires g.Valid() && Bounded(g, n) && |use| == |def| == |liveOut| == |g.blocks|
    requires forall b :: 0 <= b < |g.blocks| ==> use[b] == Use(g, consts, b) && def[b] == Def(g, consts, b)
    requires forall b, v :: 0 <= b < |liveOut| && v in liveOut[b] ==> 0 <= v < n
    ensures |degree| == |pre| == |root| == n && HintsBounded(hints, n)
    ensures ListsOf(adjList, adj, root) && IsEdgeSet(adj, n) && EdgesFollowRoots(adj, root)
    ensures forall i :: 0 <= i < |root| ==> 0 <= root[i] < |root| && root[root[i]] == root[i]
    ensures forall i :: 0 <= i < |root| && root[i] == i ==> degree[i] == |adjList[i]|
    ensures PrecolourKept(pre, root) && DistinctPrecolours(pre) && Alone(consts, root)
    ensures RootsUsed(Used(use, def, n), root)
    ensures forall v :: 0 <= v < n ==> pre[v] >= -1
    ensures forall v :: 0 <= v < n && pre[v] != -1 ==>
      exists i :: 0 <= i < |g.nodes| && g.IsParameter(i) && g.nodes[i].vreg == v && g.nodes[i].payload == pre[v]
    ensures forall i :: 0 <= i < |g.nodes| && g.IsParameter(i) ==>
      0 <= g.nodes[i].vreg < n && pre[g.nodes[i].vreg] == g.nodes[i].payload
    ensures forall u, v :: Clash(g, consts, liveOut, u, v) ==> (u, v) in adj
    ensures TriedUpTo(g, consts, adj, root, pre, |g.blocks|, 0)
    ensures forall a, b :: (a, b) in adj ==> ClassesClash(g, consts, liveOut, root, a, b)
  {
    hide UsesUpTo, DefsUpTo, IsForest, ClashBelow, Joinable, TriedUpTo, FromEdges;
    var cg;
    cg, hints := Build(g, consts, liveOut, n);
    ghost var clashes := cg.adj;
    pre := Precolour(g, n);
    var forest := new AliasForest(n);
    MoveEndsUsed(g, consts, use, def, n);
    var coalesced := Coalesce(g, consts, pre, cg, forest, Used(use, def, n));
    root := Roots(forest);
    ForestRoots(forest);
    adjList, degree := cg.adjList, cg.degree;
    if coalesced {
      forall i, j | 0 <= i < |adjList| && j in adjList[i] ensures 0 <= j < n { assert (i, j) in cg.adj; }
      adjList, degree := Contract(adjList, root);
      ContractedLists(cg.adj, cg.adjList, root, adjList);
    }
    adj := cg.adj;
    assert clashes <= adj;
    ClashesBetween(g, consts, liveOut, clashes, root, adj);
  }

  /** Members of the classes of `a` and `b` clash. */
  ghost predicate ClassesClash<V>(g: Graph<V>, consts: set<int>, liveOut: seq<set<int>>, root: seq<int>, a: int,
                                  b: int) {
    exists x, y :: Clash(g, consts, liveOut, x, y) && Members(root, x, a) && Members(root, y, b)
  }

  lemma ClashesBetween<V>(g: Graph<V>, consts: set<int>, liveOut: seq<set<int>>, clashes: set<(int, int)>,
                          root: seq<int>, adj: set<(int, int)>)
    requires forall u, v :: (u, v) in clashes <==> Clash(g, consts, liveOut, u, v)
    requires FromEdges(clashes, root, adj)
    ensures forall a, b :: (a, b) in adj ==> ClassesClash(g, consts, liveOut, root, a, b)
  {
    hide Clash;
    forall a, b | (a, b) in adj ensures ClassesClash(g, consts, liveOut, root, a, b) {
      assert Between(clashes, root, a, b);
      var x, y :| (x, y) in clashes && Members(root, x, a) && Members(root, y, b);
      assert Clash(g, consts, liveOut, x, y);
    }
  }

  // ----- What the allocation saves -----

  /** A parameter with this slot is in the class of `a`. */
  ghost predicate HasSlot<V>(g: Graph<V>, root: seq<int>, a: int, slot: int) {
    exists i :: 0 <= i < |g.nodes| && g.IsParameter(i) && g.nodes[i].payload == slot &&
      Members(root, g.nodes[i].vreg, a)
  }

  /** The two ends of the Move are one register, or they clash, or they are bound to different slots. */
  ghost predicate MoveSaved<V>(g: Graph<V>, consts: set<int>, liveOut: seq<set<int>>, classes: seq<int>, n: nat) {
    n < |g.nodes| && g.MoveSource(n) != NO_REG && g.MoveSource(n) !in consts && g.nodes[n].vreg !in consts ==>
      var u, v := g.nodes[n].vreg, g.MoveSource(n);
      Members(classes, u, v) || ClassesClash(g, consts, liveOut, classes, u, v) ||
        exists s, t :: s != t && HasSlot(g, classes, u, s) && HasSlot(g, classes, v, t)
  }

  /** A register in place `c` clashes with the class of `v`. */
  ghost predicate TakenByClash<V>(g: Graph<V>, consts: set<int>, liveOut: seq<set<int>>, classes: seq<int>,
                                  location: seq<int>, v: int, c: int) {
    exists w :: 0 <= w < |location| && location[w] == c && ClassesClash(g, consts, liveOut, classes, v, w)
  }

  /** A register that is kept on the frame finds all K places taken by registers that its class clashes with, or is
      bound to a slot. */
  ghost predicate SpillNeeded<V>(g: Graph<V>, consts: set<int>, liveOut: seq<set<int>>, classes: seq<int>,
                                 location: seq<int>, v: int) {
    0 <= v < |location| && location[v] >= K ==>
      (exists s :: HasSlot(g, classes, v, s)) ||
      forall c :: 0 <= c < K ==> TakenByClash(g, consts, liveOut, classes, location, v, c)
  }

  /** Registers of a class share a place, no Move is left whose ends could share one, and nothing is spilled without
      need. */
  ghost predicate Economical<V>(g: Graph<V>, consts: set<int>, a: Allocation, classes: seq<int>) {
    && |classes| == |a.color|
    && (forall u, v :: Members(classes, u, v) ==> a.color[u] == a.color[v])
    && (forall b, k :: 0 <= b < |g.blocks| && 0 <= k < |g.blocks[b].instructions| ==>
          MoveSaved(g, consts, a.liveOut, classes, g.blocks[b].instructions[k]))
    && (forall v :: SpillNeeded(g, consts, a.liveOut, classes, a.color, v))
  }

  lemma MoveIsSaved<V>(g: Graph<V>, consts: set<int>, liveOut: seq<set<int>>, adj: set<(int, int)>, root: seq<int>,
                       pre: seq<int>, n: nat)
    requires MoveTried(g, consts, adj, root, pre, n) && |pre| == |root| && g.Valid() && Bounded(g, |root|)
    requires forall i :: 0 <= i < |root| ==> 0 <= root[i] < |root| && root[root[i]] == root[i]
    requires forall a, b :: (a, b) in adj ==> ClassesClash(g, consts, liveOut, root, a, b)
    requires forall v :: 0 <= v < |pre| && pre[v] != -1 ==>
      exists i :: 0 <= i < |g.nodes| && g.IsParameter(i) && g.nodes[i].vreg == v && g.nodes[i].payload == pre[v]
    ensures MoveSaved(g, consts, liveOut, root, n)
  {
    if n < |g.nodes| && g.MoveSource(n) != NO_REG && g.MoveSource(n) !in consts && g.nodes[n].vreg !in consts {
      var u, v := g.nodes[n].vreg, g.MoveSource(n);
      var a, b := root[u], root[v];
      assert ClassesTried(adj, pre, a, b);
      if (a, b) in adj {
        SameClash(g, consts, liveOut, root, a, b, u, v);
      } else if a != b {
        SlotOf(g, root, pre, a, u);
        SlotOf(g, root, pre, b, v);
      }
    }
  }

  lemma SlotOf<V>(g: Graph<V>, root: seq<int>, pre: seq<int>, a: int, u: int)
    requires 0 <= a < |pre| == |root| && pre[a] != -1 && Members(root, a, u)
    requires forall v :: 0 <= v < |pre| && pre[v] != -1 ==>
      exists i :: 0 <= i < |g.nodes| && g.IsParameter(i) && g.nodes[i].vreg == v && g.nodes[i].payload == pre[v]
    ensures HasSlot(g, root, u, pre[a])
  {
  }

  lemma SameClash<V>(g: Graph<V>, consts: set<int>, liveOut: seq<set<int>>, root: seq<int>, a: int, b: int, u: int,
                     v: int)
    requires ClassesClash(g, consts, liveOut, root, a, b) && Members(root, a, u) && Members(root, b, v)
    ensures ClassesClash(g, consts, liveOut, root, u, v)
  {
    hide Clash;
  }

  lemma SpillIsNeeded<V>(g: Graph<V>, consts: set<int>, liveOut: seq<set<int>>, adj: set<(int, int)>, root: seq<int>,
                         pre: seq<int>, color: seq<int>, final: seq<int>, order: seq<int>, adjList: seq<seq<int>>,
                         hints: seq<seq<int>>, v: int)
    requires ClassesColoured(adj, root, pre, color, final, order, adjList) && |hints| == |root|
    requires forall a, b :: (a, b) in adj ==> ClassesClash(g, consts, liveOut, root, a, b)
    requires forall v :: 0 <= v < |pre| && pre[v] != -1 ==>
      exists i :: 0 <= i < |g.nodes| && g.IsParameter(i) && g.nodes[i].vreg == v && g.nodes[i].payload == pre[v]
    requires forall i :: i in order ==> WellChosen(adjList, hints, color, i)
    ensures SpillNeeded(g, consts, liveOut, root, final, v)
  {
    if 0 <= v < |final| && final[v] >= K {
      FinalOfRoot(adj, root, pre, color, final, order, adjList, v);
      var r := root[v];
      if pre[r] != -1 {
        SlotOf(g, root, pre, r, v);
      } else {
        assert r in order && WellChosen(adjList, hints, color, r);
        forall c | 0 <= c < K ensures TakenByClash(g, consts, liveOut, root, final, v, c) {
          assert TakenBy(adjList[r], color, c);
          var w :| w in adjList[r] && 0 <= w < |color| && color[w] == c;
          FinalOfRoot(adj, root, pre, color, final, order, adjList, w);
          assert (r, w) in adj && final[w] == c;
          SameClash(g, consts, liveOut, root, r, w, v, w);
        }
      }
    }
  }

  lemma Saves<V>(g: Graph<V>, consts: set<int>, a: Allocation, adj: set<(int, int)>, root: seq<int>, pre: seq<int>,
                 color: seq<int>, order: seq<int>, adjList: seq<seq<int>>, hints: seq<seq<int>>)
    requires g.Valid() && Bounded(g, |root|) && |hints| == |root|
    requires ClassesColoured(adj, root, pre, color, a.color, order, adjList)
    requires TriedUpTo(g, consts, adj, root, pre, |g.blocks|, 0)
    requires forall u, v :: (u, v) in adj ==> ClassesClash(g, consts, a.liveOut, root, u, v)
    requires forall v :: 0 <= v < |pre| && pre[v] != -1 ==>
      exists i :: 0 <= i < |g.nodes| && g.IsParameter(i) && g.nodes[i].vreg == v && g.nodes[i].payload == pre[v]
    requires forall i :: i in order ==> WellChosen(adjList, hints, color, i)
    ensures Economical(g, consts, a, root)
  {
    hide MoveTried, ClassesClash, WellChosen, MoveSaved, SpillNeeded;
    forall u, v | Members(root, u, v) ensures a.color[u] == a.color[v] {
      FinalOfRoot(adj, root, pre, color, a.color, order, adjList, u);
      FinalOfRoot(adj, root, pre, color, a.color, order, adjList, v);
    }
    forall b, k | 0 <= b < |g.blocks| && 0 <= k < |g.blocks[b].instructions|
      ensures MoveSaved(g, consts, a.liveOut, root, g.blocks[b].instructions[k])
    {
      MoveIsSaved(g, consts, a.liveOut, adj, root, pre, g.blocks[b].instructions[k]);
    }
    forall v ensures SpillNeeded(g, consts, a.liveOut, root, a.color, v) {
      SpillIsNeeded(g, consts, a.liveOut, adj, root, pre, color, a.color, order, adjList, hints, v);
    }
  }

  /** From the scheduled graph to a location for every register. */
  method Allocate<V>(g: Graph<V>) returns (a: Allocation, ghost classes: seq<int>)
    requires g.Valid()
    ensures Faithful(g, g.PlainConstants(), a)
    ensures forall c, h: nat :: 0 <= c < |g.blocks| ==> (h in a.extra[c] <==> Guards(g, h, c))
    ensures NothingSpurious(g, a) && Economical(g, g.PlainConstants(), a, classes)
  {
    hide Guards, LiveAtStart, LiveAtEnd, UsesUpTo, DefsUpTo, Clash, Simplified, Stuck, Occurs;
    hide ClassesClash, TriedUpTo, WellChosen, Economical;
    var n := CountRegisters(g);
    var consts := FindPlainConstants(g);
    var use, def := UseDef(g, consts);
    var extra := TryRegions(g);
    HandlersAreBlocks(g, extra);
    var liveIn, liveOut := Analyse(g, extra, use, def);
    RegistersBounded(g, consts, use, liveOut, n);
    LiveMeansUsed(g, consts, use, liveOut);
    var adjList, degree, root, pre, hints;
    ghost var adj;
    adjList, degree, root, pre, hints, adj := BuildClasses(g, consts, use, def, liveOut, n);
    var removed := MarkRemoved(n, consts, root, pre, use, def);
    ghost var order, color;
    var final;
    final, order, color := ColourClasses(adjList, degree, removed, root, pre, hints, adj);
    a := Allocation(final, extra, liveIn, liveOut);
    PlacedByClasses(g, consts, use, def, adj, root, pre, color, final, order, adjList, removed);
    ApartByClasses(g, consts, liveOut, adj, root, pre, color, final, order, adjList);
    StableFlows(g, consts, use, def, a);
    ExactlyFlows(g, use, def, a);
    classes := root;
    Saves(g, consts, a, adj, root, pre, color, order, adjList, hints);
  }

  lemma ApartByClasses<V>(g: Graph<V>, consts: set<int>, liveOut: seq<set<int>>, adj: set<(int, int)>, root: seq<int>,
                          pre: seq<int>, color: seq<int>, final: seq<int>, order: seq<int>, adjList: seq<seq<int>>)
    requires ClassesColoured(adj, root, pre, color, final, order, adjList)
    requires forall u, v :: Clash(g, consts, liveOut, u, v) ==> (u, v) in adj
    ensures ClashesApart(g, consts, liveOut, final)
  {
    hide Clash, ClassesColoured;
    forall u, v | Clash(g, consts, liveOut, u, v) && 0 <= u < |final| && 0 <= v < |final| && final[u] != -1 &&
      final[v] != -1
      ensures final[u] != final[v]
    {
      SameLength(adj, root, pre, color, final, order, adjList);
      EdgeApart(adj, root, pre, color, final, order, adjList, u, v);
    }
  }

  lemma SameLength(adj: set<(int, int)>, root: seq<int>, pre: seq<int>, color: seq<int>, final: seq<int>,
                   order: seq<int>, adjList: seq<seq<int>>)
    requires ClassesColoured(adj, root, pre, color, final, order, adjList)
    ensures |final| == |root|
  {
  }

  lemma StableFlows<V>(g: Graph<V>, consts: set<int>, use: seq<set<int>>, def: seq<set<int>>, a: Allocation)
    requires |a.extra| == |a.liveIn| == |a.liveOut| == |use| == |def| == |g.blocks|
    requires forall b :: 0 <= b < |g.blocks| ==> use[b] == Use(g, consts, b) && def[b] == Def(g, consts, b)
    requires forall b :: 0 <= b < |g.blocks| ==> Stable(g, a.extra, use, def, a.liveIn, a.liveOut, b)
    ensures FlowsLive(g, consts, a)
  {
    hide UsesUpTo, DefsUpTo;
    forall b | 0 <= b < |g.blocks| ensures a.liveIn[b] == Use(g, consts, b) + (a.liveOut[b] - Def(g, consts, b)) {
      assert Stable(g, a.extra, use, def, a.liveIn, a.liveOut, b);
    }
    forall b, s: nat | 0 <= b < |g.blocks| && s < |g.blocks| && Flows(g, a.extra, b, s)
      ensures a.liveIn[s] <= a.liveOut[b]
    {
      assert Stable(g, a.extra, use, def, a.liveIn, a.liveOut, b);
    }
  }

  lemma ExactlyFlows<V>(g: Graph<V>, use: seq<set<int>>, def: seq<set<int>>, a: Allocation)
    requires g.Valid() && |a.extra| == |a.liveIn| == |a.liveOut| == |use| == |def| == |g.blocks|
    requires forall b, h :: 0 <= b < |g.blocks| && h in a.extra[b] ==> h < |g.blocks|
    requires forall b, v :: 0 <= b < |g.blocks| ==> (v in a.liveIn[b] <==> LiveAtStart(g, a.extra, use, def, b, v))
    requires forall b, v :: 0 <= b < |g.blocks| ==> (v in a.liveOut[b] <==> LiveAtEnd(g, a.extra, use, def, b, v))
    ensures NothingSpurious(g, a)
  {
    hide LiveAtStart;
    forall b: nat, v | b < |g.blocks| && v in a.liveOut[b] ensures Wanted(g, a, b, v) {
      assert LiveAtEnd(g, a.extra, use, def, b, v);
      var s: nat :| Flows(g, a.extra, b, s) && LiveAtStart(g, a.extra, use, def, s, v);
      FlowsToBlock(g, a.extra, b, s);
    }
  }

  lemma FlowsToBlock<V>(g: Graph<V>, extra: seq<set<nat>>, b: nat, s: nat)
    requires g.Valid() && b < |g.blocks| && |extra| == |g.blocks| && Flows(g, extra, b, s)
    requires forall c, h :: 0 <= c < |g.blocks| && h in extra[c] ==> h < |g.blocks|
    ensures s < |g.blocks|
  {
    if s in g.Succs(b) {
      var k :| 0 <= k < |g.blocks[b].succs| && g.blocks[b].succs[k] == s;
    }
  }

  lemma ForestRoots(forest: AliasForest)
    requires forest.Valid()
    ensures |forest.root| == forest.size
    ensures forall i :: 0 <= i < |forest.root| ==>
      0 <= forest.root[i] < |forest.root| && forest.root[forest.root[i]] == forest.root[i]
  {
  }
}
