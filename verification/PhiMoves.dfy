/** Ordering the moves that replace the phis of a block's successors
    (src/compiler/RegisterAllocator.cpp:117-192). */
module PhiMoves {
  import opened DepthFirstOrder

  /** dst := src, both virtual registers. */
  datatype PhiMove = PhiMove(dst: int, src: int)

  /** The phis of one edge write different registers. */
  ghost predicate DistinctTargets(moves: seq<PhiMove>) {
    forall i, j :: 0 <= i < j < |moves| ==> moves[i].dst != moves[j].dst
  }

  /** The move that writes register `r`, or -1. */
  function Writer(moves: seq<PhiMove>, r: int): (i: int)
    ensures -1 <= i < |moves|
    ensures i >= 0 ==> moves[i].dst == r
    ensures i == -1 ==> forall j :: 0 <= j < |moves| ==> moves[j].dst != r
  {
    if moves == [] then -1
    else if moves[|moves| - 1].dst == r then |moves| - 1
    else Writer(moves[..|moves| - 1], r)
  }

  /** All moves at once: every source is read before anything is written. */
  function Parallel<V>(moves: seq<PhiMove>, regs: int -> V): int -> V {
    r => if Writer(moves, r) >= 0 then regs(moves[Writer(moves, r)].src) else regs(r)
  }

  /** In register `r`, the moves one by one leave what they leave when done at once. */
  ghost predicate SameEffect<V>(moves: seq<PhiMove>, order: seq<nat>, regs: int -> V, r: int) {
    (forall k :: 0 <= k < |order| ==> order[k] < |moves|) &&
      Sequential(moves, order, regs)(r) == Parallel(moves, regs)(r)
  }

  /** A register file in which every register holds something else. */
  function AllDifferent(): int -> int {
    x => x
  }

  function Assign<V>(regs: int -> V, move: PhiMove): int -> V {
    r => if r == move.dst then regs(move.src) else regs(r)
  }

  /** The moves one after the other, in the given order. */
  function Sequential<V>(moves: seq<PhiMove>, order: seq<nat>, regs: int -> V): int -> V
    requires forall k :: 0 <= k < |order| ==> order[k] < |moves|
  {
    if order == [] then regs
    else Assign(Sequential(moves, order[..|order| - 1], regs), moves[order[|order| - 1]])
  }

  /** `other` reads the register that `m` writes, so it goes first. */
  predicate GoesBefore(moves: seq<PhiMove>, other: nat, m: nat)
    requires other < |moves| && m < |moves|
  {
    other != m && moves[other].src == moves[m].dst
  }

  /** The table of dfsMove: for every move, the moves that go before it. */
  ghost predicate IsReaders(moves: seq<PhiMove>, deps: seq<seq<nat>>) {
    |deps| == |moves| && Closed(deps) &&
    forall m, other: nat :: 0 <= m < |moves| && other < |moves| ==> (other in deps[m] <==> GoesBefore(moves, other, m))
  }

  /** A numbering in which every reader of a register comes before its writer: there is no cycle of moves. */
  ghost predicate NoCycle(moves: seq<PhiMove>) {
    exists rank: seq<nat> :: RanksReaders(moves, rank)
  }

  ghost predicate RanksReaders(moves: seq<PhiMove>, rank: seq<nat>) {
    |rank| == |moves| &&
    forall other: nat, m: nat :: other < |moves| && m < |moves| && GoesBefore(moves, other, m) ==> rank[other] < rank[m]
  }

  /** No move that reads a register stands behind the move that overwrites it. */
  ghost predicate ReadersFirst(moves: seq<PhiMove>, order: seq<nat>) {
    forall k, l :: 0 <= k < l < |order| && order[k] < |moves| && order[l] < |moves| ==>
      !GoesBefore(moves, order[l], order[k])
  }

  /** `order` lists every move exactly once. */
  ghost predicate ListsAll(moves: seq<PhiMove>, order: seq<nat>) {
    && Distinct(order) && (forall k :: 0 <= k < |order| ==> order[k] < |moves|)
    && (forall x: nat :: x < |moves| ==> x in order)
  }

  method OrderMoves(moves: seq<PhiMove>) returns (order: seq<nat>)
    ensures ListsAll(moves, order)
    ensures NoCycle(moves) ==> ReadersFirst(moves, order)
  {
    var deps := Readers(moves);
    order := Order(deps);
    forall k | 0 <= k < |order| ensures order[k] < |moves| { assert order[k] in order; }
    if rank :| RanksReaders(moves, rank) {
      assert Ranked(deps, rank) by {
        forall m, i | 0 <= m < |deps| && 0 <= i < |deps[m]| ensures rank[deps[m][i]] < rank[m] {
          assert deps[m][i] in deps[m];
        }
      }
      forall k, l | 0 <= k < l < |order| ensures !GoesBefore(moves, order[l], order[k]) {
        assert DepsBefore(deps, order, k);
        assert order[l] !in order[..k];
        assert order[l] !in deps[order[k]];
      }
    }
  }

  /** For every move, the moves that read what it writes. */
  method Readers(moves: seq<PhiMove>) returns (deps: seq<seq<nat>>)
    ensures IsReaders(moves, deps)
  {
    deps := [];
    for m := 0 to |moves|
      invariant |deps| == m
      invariant forall c, i :: 0 <= c < m && 0 <= i < |deps[c]| ==> deps[c][i] < |moves|
      invariant forall c, other: nat :: 0 <= c < m && other < |moves| ==>
        (other in deps[c] <==> GoesBefore(moves, other, c))
    {
      var row: seq<nat> := [];
      for other := 0 to |moves|
        invariant forall i :: 0 <= i < |row| ==> row[i] < other
        invariant forall o: nat :: o < other ==> (o in row <==> GoesBefore(moves, o, m))
      {
        if other != m && moves[other].src == moves[m].dst {
          row := row + [other];
        }
      }
      deps := deps + [row];
    }
  }

  // ----- The effect -----

  /** A register that nothing from position `k` on writes keeps the value it has there. */
  lemma {:induction false} Unwritten<V>(moves: seq<PhiMove>, order: seq<nat>, k: nat, regs: int -> V, r: int)
    requires k <= |order| && forall j :: 0 <= j < |order| ==> order[j] < |moves|
    requires forall j :: k <= j < |order| ==> moves[order[j]].dst != r
    ensures Sequential(moves, order, regs)(r) == Sequential(moves, order[..k], regs)(r)
  {
    if k < |order| {
      var front := order[..|order| - 1];
      assert front[..k] == order[..k];
      Unwritten(moves, front, k, regs, r);
    } else {
      assert order[..k] == order;
    }
  }

  /** A move leaves in its target what its source held when its turn came. */
  lemma Written<V>(moves: seq<PhiMove>, order: seq<nat>, k: nat, regs: int -> V)
    requires DistinctTargets(moves) && Distinct(order) && k < |order|
    requires forall j :: 0 <= j < |order| ==> order[j] < |moves|
    ensures Sequential(moves, order, regs)(moves[order[k]].dst) ==
      Sequential(moves, order[..k], regs)(moves[order[k]].src)
  {
    forall j | k + 1 <= j < |order| ensures moves[order[j]].dst != moves[order[k]].dst {
      assert order[j] != order[k];
    }
    Unwritten(moves, order, k + 1, regs, moves[order[k]].dst);
    assert order[..k + 1][..k] == order[..k];
  }

  /** In a reader-first order, running the moves one by one is running them all at once. */
  lemma SequentialIsParallel<V>(moves: seq<PhiMove>, order: seq<nat>, regs: int -> V, r: int)
    requires DistinctTargets(moves) && ListsAll(moves, order) && ReadersFirst(moves, order)
    ensures SameEffect(moves, order, regs, r)
  {
    hide Sequential;
    var i := Writer(moves, r);
    if i >= 0 {
      assert i as nat in order;
      var k :| 0 <= k < |order| && order[k] == i;
      Written(moves, order, k, regs);
      forall j | 0 <= j < k ensures moves[order[..k][j]].dst != moves[i].src {
        assert order[j] != order[k] && !GoesBefore(moves, order[k], order[j]);
      }
      Unwritten(moves, order[..k], 0, regs, moves[i].src);
      assert order[..k][..0] == [];
      NothingRun(moves, regs);
    } else {
      Unwritten(moves, order, 0, regs, r);
      assert order[..0] == [];
      NothingRun(moves, regs);
    }
  }

  lemma NothingRun<V>(moves: seq<PhiMove>, regs: int -> V)
    ensures Sequential(moves, [], regs) == regs
  {
  }

  // ----- The exact condition -----

  ghost function Position(order: seq<nat>, x: nat): (k: nat)
    requires x in order
    ensures k < |order| && order[k] == x
  {
    var k :| 0 <= k < |order| && order[k] == x; k
  }

  lemma ReaderRanFirst(moves: seq<PhiMove>, order: seq<nat>, other: nat, m: nat)
    requires DistinctTargets(moves) && ListsAll(moves, order) && other < |moves| && m < |moves|
    requires SameEffect(moves, order, AllDifferent(), moves[m].dst)
    requires SameEffect(moves, order, AllDifferent(), moves[other].dst)
    requires GoesBefore(moves, other, m) && moves[m].dst != moves[m].src
    ensures Position(order, other) < Position(order, m)
  {
    hide Sequential;
    var km, ko := Position(order, m), Position(order, other);
    assert Writer(moves, moves[m].dst) == m && Writer(moves, moves[other].dst) == other;
    Written(moves, order, km, AllDifferent());
    Written(moves, order, ko, AllDifferent());
    if km < ko {
      assert order[..ko][..km] == order[..km];
      Written(moves, order[..ko], km, AllDifferent());
    }
  }

  /** If some one-by-one order has the parallel effect on pairwise different values, no cycle runs through the moves. */
  lemma OnlyWithoutCycle(moves: seq<PhiMove>, order: seq<nat>)
    requires DistinctTargets(moves) && ListsAll(moves, order)
    requires forall r :: SameEffect(moves, order, AllDifferent(), r)
    ensures NoCycle(moves)
  {
    hide SameEffect;
    var rank := seq(|moves|, i requires 0 <= i < |moves| =>
      (if moves[i].dst == moves[i].src then |order| else 0) + Position(order, i));
    forall other: nat, m: nat | other < |moves| && m < |moves| && GoesBefore(moves, other, m)
      ensures rank[other] < rank[m]
    {
      assert moves[other].dst != moves[m].dst;
      if moves[m].dst != moves[m].src {
        ReaderRanFirst(moves, order, other, m);
      }
    }
    assert RanksReaders(moves, rank);
  }

  /** The ordered moves have the parallel effect on every register file exactly when no cycle runs through them. */
  lemma ExactlyWithoutCycle(moves: seq<PhiMove>, order: seq<nat>)
    requires DistinctTargets(moves) && ListsAll(moves, order) && (NoCycle(moves) ==> ReadersFirst(moves, order))
    ensures NoCycle(moves) <==> forall regs: int -> int, r :: SameEffect(moves, order, regs, r)
  {
    if NoCycle(moves) {
      forall regs: int -> int, r ensures SameEffect(moves, order, regs, r) {
        SequentialIsParallel(moves, order, regs, r);
      }
    }
    if forall regs: int -> int, r :: SameEffect(moves, order, regs, r) {
      OnlyWithoutCycle(moves, order);
    }
  }

  /** Two phis that swap their values form a cycle, and no order of the two moves swaps them. */
  lemma SwapIsNotOrdered(order: seq<nat>)
    requires ListsAll([PhiMove(0, 1), PhiMove(1, 0)], order)
    ensures exists r :: !SameEffect([PhiMove(0, 1), PhiMove(1, 0)], order, AllDifferent(), r)
  {
    var moves := [PhiMove(0, 1), PhiMove(1, 0)];
    assert GoesBefore(moves, 0, 1) && GoesBefore(moves, 1, 0);
    forall rank: seq<nat> ensures !RanksReaders(moves, rank) { }
    if forall r :: SameEffect(moves, order, AllDifferent(), r) {
      OnlyWithoutCycle(moves, order);
    }
  }
}
