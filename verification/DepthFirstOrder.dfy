/** The depth-first ordering that the allocator uses twice: to schedule a block's data nodes and to order
    phi moves (src/compiler/RegisterAllocator.cpp:81-109, 145-192). */
module DepthFirstOrder {

  /** `deps[m]` are the items to be placed before item `m`. */
  ghost predicate Closed(deps: seq<seq<nat>>) {
    forall m, i :: 0 <= m < |deps| && 0 <= i < |deps[m]| ==> deps[m][i] < |deps|
  }

  /** `rank` falls along every dependency, so there are no cycles. */
  ghost predicate Ranked(deps: seq<seq<nat>>, rank: seq<nat>) {
    |rank| == |deps| && Closed(deps) &&
    forall m, i :: 0 <= m < |deps| && 0 <= i < |deps[m]| ==> rank[deps[m][i]] < rank[m]
  }

  ghost predicate Acyclic(deps: seq<seq<nat>>) {
    exists rank :: Ranked(deps, rank)
  }

  ghost predicate Distinct(s: seq<nat>) {
    forall i, j :: 0 <= i < j < |s| ==> s[i] != s[j]
  }

  /** Everything `order[k]` depends on stands before position `k`. */
  ghost predicate DepsBefore(deps: seq<seq<nat>>, order: seq<nat>, k: nat)
    requires k < |order|
  {
    order[k] < |deps| && forall i :: 0 <= i < |deps[order[k]]| ==> deps[order[k]][i] in order[..k]
  }

  ghost predicate Topological(deps: seq<seq<nat>>, order: seq<nat>) {
    forall k :: 0 <= k < |order| ==> DepsBefore(deps, order, k)
  }

  ghost function Items(count: nat): (r: set<nat>)
    ensures forall i: nat :: i in r <==> i < count
  {
    if count == 0 then {} else Items(count - 1) + {count - 1}
  }

  /** `order` extends `before` by new items only, and stays topological. */
  ghost predicate Extends(deps: seq<seq<nat>>, before: seq<nat>, order: seq<nat>) {
    && |before| <= |order| && order[..|before|] == before
    && Distinct(order) && (forall x :: x in order ==> x < |deps|)
  }

  /** Item `m` ranks below everything on the stack. */
  ghost predicate Below(rank: seq<nat>, m: nat, visiting: set<nat>) {
    forall x :: x in visiting ==> m < |rank| && x < |rank| && rank[m] < rank[x]
  }

  /** `within` holds the dependencies of everything it holds. */
  ghost predicate ClosedUnder(deps: seq<seq<nat>>, within: set<nat>) {
    forall m, i :: m in within && m < |deps| && 0 <= i < |deps[m]| ==> deps[m][i] in within
  }

  /** dfs(m): places the unplaced dependencies of `m`, then `m`; an item on the stack is left alone. */
  method Visit(deps: seq<seq<nat>>, m: nat, visiting: set<nat>, before: seq<nat>, ghost rank: seq<nat>,
               ghost within: set<nat>)
    returns (order: seq<nat>)
    requires Closed(deps) && m < |deps| && visiting <= Items(|deps|)
    requires Extends(deps, before, before) && (forall x :: x in visiting ==> x !in before)
    ensures Extends(deps, before, order)
    ensures forall x :: x in order ==> x in before || x !in visiting
    ensures m in order || m in visiting
    ensures ClosedUnder(deps, within) && m in within ==> forall x :: x in order ==> x in before || x in within
    ensures Ranked(deps, rank) && Topological(deps, before) && Below(rank, m, visiting) ==>
      m in order && Topological(deps, order)
    decreases Items(|deps|) - visiting, 1
  {
    order := before;
    if m in before || m in visiting {
      return;
    }
    order := VisitAll(deps, deps[m], visiting + {m}, before, rank, within);
    var placed := order;
    order := order + [m];
    assert forall x :: x in order <==> x in placed || x == m;
    assert order[..|before|] == before;
    if Ranked(deps, rank) && Topological(deps, before) && Below(rank, m, visiting) {
      Append(deps, placed, m);
    }
  }

  lemma Append(deps: seq<seq<nat>>, placed: seq<nat>, m: nat)
    requires m < |deps| && Topological(deps, placed) && forall i :: 0 <= i < |deps[m]| ==> deps[m][i] in placed
    ensures Topological(deps, placed + [m])
  {
    var order := placed + [m];
    forall k | 0 <= k < |order| ensures DepsBefore(deps, order, k) {
      if k < |placed| {
        assert DepsBefore(deps, placed, k);
        assert order[..k] == placed[..k];
      } else {
        assert order[..k] == placed;
      }
    }
  }

  /** Visits a list of items one after the other. */
  method VisitAll(deps: seq<seq<nat>>, list: seq<nat>, visiting: set<nat>, before: seq<nat>, ghost rank: seq<nat>,
                  ghost within: set<nat>)
    returns (order: seq<nat>)
    requires Closed(deps) && visiting <= Items(|deps|) && (forall i :: 0 <= i < |list| ==> list[i] < |deps|)
    requires Extends(deps, before, before) && (forall x :: x in visiting ==> x !in before)
    ensures Extends(deps, before, order)
    ensures forall x :: x in order ==> x in before || x !in visiting
    ensures forall i :: 0 <= i < |list| ==> list[i] in order || list[i] in visiting
    ensures ClosedUnder(deps, within) && (forall i :: 0 <= i < |list| ==> list[i] in within) ==>
      forall x :: x in order ==> x in before || x in within
    ensures (Ranked(deps, rank) && Topological(deps, before) &&
      (forall i :: 0 <= i < |list| ==> Below(rank, list[i], visiting))) ==>
      Topological(deps, order) && forall i :: 0 <= i < |list| ==> list[i] in order
    decreases Items(|deps|) - visiting, 2, |list|
  {
    order := before;
    for k := 0 to |list|
      invariant Extends(deps, before, order)
      invariant forall x :: x in order ==> x in before || x !in visiting
      invariant forall i :: 0 <= i < k ==> list[i] in order || list[i] in visiting
      invariant ClosedUnder(deps, within) && (forall i :: 0 <= i < |list| ==> list[i] in within) ==>
        forall x :: x in order ==> x in before || x in within
      invariant (Ranked(deps, rank) && Topological(deps, before) &&
        (forall i :: 0 <= i < |list| ==> Below(rank, list[i], visiting))) ==>
        Topological(deps, order) && forall i :: 0 <= i < k ==> list[i] in order
    {
      var prev := order;
      order := Visit(deps, list[k], visiting, prev, rank, within);
      assert order[..|prev|] == prev;
      forall x | x in prev ensures x in order { }
      assert order[..|before|] == order[..|prev|][..|before|];
    }
  }

  /** for each item: dfs(item). Every item is placed once; without cycles, behind everything it depends on. */
  method Order(deps: seq<seq<nat>>) returns (order: seq<nat>)
    requires Closed(deps)
    ensures Distinct(order) && forall x: nat :: x in order <==> x < |deps|
    ensures Acyclic(deps) ==> Topological(deps, order)
  {
    ghost var rank: seq<nat> := [];
    if r :| Ranked(deps, r) {
      rank := r;
    }
    order := VisitAll(deps, seq(|deps|, i => i), {}, [], rank, {});
    forall x: nat | x < |deps| ensures x in order {
      assert seq(|deps|, i => i)[x] == x;
    }
  }
}
