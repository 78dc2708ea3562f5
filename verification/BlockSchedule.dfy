/** From the graph of nodes to basic blocks with ordered instructions (src/compiler/RegisterAllocator.cpp:29-109). */
module BlockSchedule {
  import opened DepthFirstOrder

  const NONE := -1

  /** What scheduling looks at in a node: whether it heads a block, joins control, is a Phi or a removed node, and
      its control input, explicit predecessor and data inputs. */
  datatype Item = Item(spine: bool, join: bool, phi: bool, nop: bool, control: int, seqPrev: int, inputs: seq<int>)

  /** A node is created after its control input. */
  ghost predicate Valid(items: seq<Item>) {
    forall n :: 0 <= n < |items| ==>
      NONE <= items[n].control < n && NONE <= items[n].seqPrev < |items| && GoodInputs(items, n)
  }

  ghost predicate GoodInputs(items: seq<Item>, n: nat)
    requires n < |items|
  {
    forall i :: 0 <= i < |items[n].inputs| ==> NONE <= items[n].inputs[i] < |items|
  }

  predicate Heads(it: Item) {
    it.spine && !it.nop
  }

  predicate Data(it: Item) {
    !it.nop && !it.spine && !it.phi
  }

  /** The block head that controls node `n`. */
  ghost function Owner(items: seq<Item>, n: int): (o: int)
    requires Valid(items) && NONE <= n < |items|
    ensures NONE <= o < |items| && (o != NONE ==> o < n && Heads(items[o]))
    decreases n
  {
    if n == NONE || items[n].control == NONE then NONE
    else if Heads(items[items[n].control]) then items[n].control
    else Owner(items, items[n].control)
  }

  method FindOwner(items: seq<Item>, n: nat) returns (o: int)
    requires Valid(items) && n < |items|
    ensures o == Owner(items, n)
  {
    o := items[n].control;
    while o != NONE && !Heads(items[o])
      invariant NONE <= o < n
      invariant Owner(items, n) == if o != NONE && Heads(items[o]) then o else Owner(items, o)
      decreases o
    {
      o := items[o].control;
    }
  }

  /** What must stand before node `n` in the block of `head`: its explicit predecessor and its inputs from there. */
  ghost function Before(items: seq<Item>, head: nat, n: nat): (r: seq<nat>)
    requires Valid(items) && n < |items|
    ensures forall i :: 0 <= i < |r| ==> r[i] < |items|
    ensures forall m :: m in r <==>
      Precedes(items, head, m) && (m == items[n].seqPrev || (m in items[n].inputs && !items[m].phi))
  {
    (if Precedes(items, head, items[n].seqPrev) then [items[n].seqPrev] else []) +
      InputsBefore(items, head, items[n].inputs)
  }

  ghost predicate Precedes(items: seq<Item>, head: nat, m: int)
    requires Valid(items)
  {
    0 <= m < |items| && !items[m].spine && Owner(items, m) == head
  }

  ghost function InputsBefore(items: seq<Item>, head: nat, inputs: seq<int>): (r: seq<nat>)
    requires Valid(items)
    ensures forall i :: 0 <= i < |r| ==> r[i] < |items|
    ensures forall m :: m in r <==> m in inputs && Precedes(items, head, m) && !items[m].phi
  {
    if inputs == [] then [] else
      var m := inputs[|inputs| - 1];
      InputsBefore(items, head, inputs[..|inputs| - 1]) + if Precedes(items, head, m) && !items[m].phi then [m] else []
  }

  ghost predicate IsDependencies(items: seq<Item>, head: nat, deps: seq<seq<nat>>)
    requires Valid(items)
  {
    |deps| == |items| && forall n: nat :: n < |items| ==> deps[n] == Before(items, head, n)
  }

  method DependenciesOf(items: seq<Item>, head: nat, n: nat) returns (list: seq<nat>)
    requires Valid(items) && n < |items|
    ensures list == Before(items, head, n)
  {
    hide Valid, Owner, InputsBefore;
    InputsInRange(items, n);
    var p := items[n].seqPrev;
    var first: seq<nat> := [];
    if p != NONE && !items[p].spine {
      var o := FindOwner(items, p);
      if o == head { first := [p]; }
    }
    var rest := InputsOf(items, head, items[n].inputs);
    list := first + rest;
  }

  method InputsOf(items: seq<Item>, head: nat, inputs: seq<int>) returns (list: seq<nat>)
    requires Valid(items) && forall i :: 0 <= i < |inputs| ==> NONE <= inputs[i] < |items|
    ensures list == InputsBefore(items, head, inputs)
  {
    hide Valid, Owner;
    list := [];
    for i := 0 to |inputs|
      invariant list == InputsBefore(items, head, inputs[..i])
    {
      assert inputs[..i + 1][..i] == inputs[..i];
      var m := inputs[i];
      if m != NONE && !items[m].spine && !items[m].phi {
        var o := FindOwner(items, m);
        if o == head { list := list + [m]; }
      }
    }
    assert inputs[..|inputs|] == inputs;
  }

  lemma InputsInRange(items: seq<Item>, n: nat)
    requires Valid(items) && n < |items|
    ensures NONE <= items[n].seqPrev < |items|
    ensures forall i :: 0 <= i < |items[n].inputs| ==> NONE <= items[n].inputs[i] < |items|
  {
    assert GoodInputs(items, n);
  }

  /** The dependencies of all nodes, seen from one block. */
  method Dependencies(items: seq<Item>, head: nat) returns (deps: seq<seq<nat>>)
    requires Valid(items)
    ensures IsDependencies(items, head, deps) && Closed(deps)
  {
    hide Valid, InputsBefore, Precedes;
    deps := [];
    for n := 0 to |items|
      invariant |deps| == n && forall k: nat :: k < n ==> deps[k] == Before(items, head, k)
    {
      var list := DependenciesOf(items, head, n);
      deps := deps + [list];
    }
  }

  /** The data nodes of a block, in creation order. */
  ghost function Owned(items: seq<Item>, head: nat, upTo: nat): seq<nat>
    requires Valid(items) && upTo <= |items|
  {
    if upTo == 0 then [] else
      Owned(items, head, upTo - 1) + if Data(items[upTo - 1]) && Owner(items, upTo - 1) == head then [upTo - 1] else []
  }

  lemma {:induction false} OwnedMembers(items: seq<Item>, head: nat, upTo: nat)
    requires Valid(items) && upTo <= |items|
    ensures forall n: nat :: n in Owned(items, head, upTo) <==> n < upTo && Data(items[n]) && Owner(items, n) == head
  {
    if upTo > 0 {
      OwnedMembers(items, head, upTo - 1);
    }
  }

  /** `within` holds the block's data nodes and whatever they depend on. */
  ghost predicate Encloses(items: seq<Item>, head: nat, within: set<nat>)
    requires Valid(items)
  {
    && (forall n: nat, m: nat :: n in within && n < |items| && m in Before(items, head, n) ==> m in within)
    && (forall n: nat :: Belongs(items, head, n) ==> n in within)
  }

  ghost predicate Belongs(items: seq<Item>, head: nat, n: nat)
    requires Valid(items)
  {
    n < |items| && Data(items[n]) && Owner(items, n) == head
  }

  /** The instructions of one block: all its data nodes once, and behind what they depend on if that is possible. */
  method OrderBlock(items: seq<Item>, head: nat, ghost within: set<nat>) returns (order: seq<nat>)
    requires Valid(items) && head < |items|
    ensures Distinct(order) && (forall x :: x in order ==> x < |items|)
    ensures forall n: nat :: Belongs(items, head, n) ==> n in order
    ensures forall deps :: IsDependencies(items, head, deps) && Acyclic(deps) ==> Topological(deps, order)
    ensures Encloses(items, head, within) ==> forall x :: x in order ==> x in within
  {
    hide Topological, Valid, Owner, Before, Data, Ranked;
    var data: seq<nat> := [];
    for n := 0 to |items|
      invariant data == Owned(items, head, n)
    {
      if Data(items[n]) {
        var o := FindOwner(items, n);
        if o == head { data := data + [n]; }
      }
    }
    OwnedMembers(items, head, |items|);
    hide Owned;
    var deps := Dependencies(items, head);
    ghost var rank: seq<nat> := [];
    if r :| Ranked(deps, r) {
      rank := r;
    }
    assert forall i :: 0 <= i < |data| ==> data[i] in data;
    NothingOrdered(deps);
    order := VisitAll(deps, data, {}, [], rank, within);
    if Encloses(items, head, within) { EnclosedDeps(items, head, deps, within); }
    forall other | IsDependencies(items, head, other) && Acyclic(other) ensures Topological(other, order) {
      assert other == deps;
      RankedTopological(deps, rank);
    }
  }

  lemma RankedTopological(deps: seq<seq<nat>>, rank: seq<nat>)
    requires Ranked(deps, rank)
    ensures Closed(deps)
  {
  }

  lemma EnclosedDeps(items: seq<Item>, head: nat, deps: seq<seq<nat>>, within: set<nat>)
    requires Valid(items) && IsDependencies(items, head, deps) && Encloses(items, head, within)
    ensures ClosedUnder(deps, within)
  {
    hide Valid, Owner, Before;
    forall m, i | m in within && m < |deps| && 0 <= i < |deps[m]| ensures deps[m][i] in within {
      assert deps[m][i] in Before(items, head, m);
    }
  }

  lemma NothingOrdered(deps: seq<seq<nat>>)
    ensures Topological(deps, []) && Extends(deps, [], [])
  {
  }

  // ----- Blocks and edges -----

  ghost function HeadsUpTo(items: seq<Item>, upTo: nat): seq<nat>
    requires upTo <= |items|
  {
    if upTo == 0 then [] else HeadsUpTo(items, upTo - 1) + if Heads(items[upTo - 1]) then [upTo - 1] else []
  }

  /** The heads that control can come from to the block of `head`; a join lists them as inputs. */
  ghost function Sources(items: seq<Item>, head: nat): seq<int>
    requires Valid(items) && head < |items|
  {
    if items[head].join then JoinSources(items, items[head].inputs)
    else if Owner(items, head) == NONE then [] else [Owner(items, head)]
  }

  ghost function JoinSources(items: seq<Item>, inputs: seq<int>): seq<int>
    requires Valid(items)
  {
    if inputs == [] then [] else
      var m := inputs[|inputs| - 1];
      JoinSources(items, inputs[..|inputs| - 1]) + if Start(items, m) == NONE then [] else [Start(items, m)]
  }

  /** The block that node `m` stands for as a control input. */
  ghost function Start(items: seq<Item>, m: int): int
    requires Valid(items)
  {
    if 0 <= m < |items| then if Heads(items[m]) then m else Owner(items, m) else NONE
  }

  method FindSources(items: seq<Item>, head: nat) returns (r: seq<int>)
    requires Valid(items) && head < |items|
    ensures r == Sources(items, head)
  {
    r := [];
    if items[head].join {
      var inputs := items[head].inputs;
      for i := 0 to |inputs|
        invariant r == JoinSources(items, inputs[..i])
      {
        assert inputs[..i + 1][..i] == inputs[..i];
        assert GoodInputs(items, head);
        var m := inputs[i];
        if m != NONE {
          if Heads(items[m]) {
            r := r + [m];
          } else {
            var o := FindOwner(items, m);
            if o != NONE { r := r + [o]; }
          }
        }
      }
      assert inputs[..|inputs|] == inputs;
    } else {
      var o := FindOwner(items, head);
      if o != NONE { r := [o]; }
    }
  }

  /** Once for every way into a block `j < upTo` from `head`, the position `j`. */
  ghost function EdgesFrom(items: seq<Item>, heads: seq<nat>, head: nat, upTo: nat): seq<nat>
    requires Valid(items) && upTo <= |heads| && forall i :: 0 <= i < |heads| ==> heads[i] < |items|
  {
    if upTo == 0 then [] else
      EdgesFrom(items, heads, head, upTo - 1) + Repeat(upTo - 1, Occurrences(Sources(items, heads[upTo - 1]), head))
  }

  function Occurrences(s: seq<int>, x: int): nat {
    if s == [] then 0 else Occurrences(s[..|s| - 1], x) + if s[|s| - 1] == x then 1 else 0
  }

  function Repeat(x: nat, times: nat): seq<nat> {
    seq(times, _ => x)
  }

  // ----- The edges, told from the nodes alone -----

  /** The positions of a join at which control comes from the block of `from`. */
  ghost function JoinWays(items: seq<Item>, inputs: seq<int>, from: nat): set<nat>
    requires Valid(items)
  {
    set t: nat | t < |inputs| && Start(items, inputs[t]) == from
  }

  /** How often control can come from the block of `from` to that of `head`. */
  ghost function WaysIn(items: seq<Item>, head: nat, from: nat): nat
    requires Valid(items) && head < |items|
  {
    if items[head].join then |JoinWays(items, items[head].inputs, from)|
    else if Owner(items, head) == from then 1 else 0
  }

  ghost predicate Rising(s: seq<nat>) {
    forall a, b :: 0 <= a < b < |s| ==> s[a] <= s[b]
  }

  lemma {:induction false} CountWays(items: seq<Item>, inputs: seq<int>, from: nat)
    requires Valid(items)
    ensures Occurrences(JoinSources(items, inputs), from) == |JoinWays(items, inputs, from)|
  {
    hide Valid, Start;
    if inputs == [] {
      assert JoinWays(items, inputs, from) == {};
    } else {
      var n := |inputs| - 1;
      var front, m := inputs[..n], inputs[n];
      CountWays(items, front, from);
      var before := JoinWays(items, front, from);
      assert n !in before;
      if Start(items, m) == from {
        assert JoinWays(items, inputs, from) == before + {n};
      } else {
        assert JoinWays(items, inputs, from) == before;
      }
      OccurrencesAppend(JoinSources(items, front), Start(items, m), from);
    }
  }

  lemma OccurrencesAppend(s: seq<int>, y: int, x: int)
    ensures Occurrences(s + [y], x) == Occurrences(s, x) + if y == x then 1 else 0
    ensures Occurrences(s + [], x) == Occurrences(s, x)
  {
    assert (s + [y])[..|s|] == s && s + [] == s;
  }

  lemma CountSources(items: seq<Item>, head: nat, from: nat)
    requires Valid(items) && head < |items|
    ensures Occurrences(Sources(items, head), from) == WaysIn(items, head, from)
  {
    hide Valid, Owner;
    if items[head].join {
      CountWays(items, items[head].inputs, from);
    } else {
      OccurrencesAppend([], Owner(items, head), from);
      assert [] + [Owner(items, head)] == [Owner(items, head)];
    }
  }

  lemma {:induction false} EdgesCount(items: seq<Item>, heads: seq<nat>, head: nat, upTo: nat, j: nat)
    requires Valid(items) && upTo <= |heads| && forall i :: 0 <= i < |heads| ==> heads[i] < |items|
    ensures multiset(EdgesFrom(items, heads, head, upTo))[j] == if j < upTo then WaysIn(items, heads[j], head) else 0
    ensures Rising(EdgesFrom(items, heads, head, upTo))
    ensures forall t :: t in EdgesFrom(items, heads, head, upTo) ==> t < upTo
  {
    hide Valid, Sources, WaysIn, Rising, Repeat, Occurrences;
    if upTo == 0 {
      NothingRises();
    } else {
      EdgesCount(items, heads, head, upTo - 1, j);
      CountSources(items, heads[upTo - 1], head);
      var front := EdgesFrom(items, heads, head, upTo - 1);
      var times := Occurrences(Sources(items, heads[upTo - 1]), head);
      RepeatCount(upTo - 1, times, j);
      RisingAppend(front, upTo - 1, times);
      assert EdgesFrom(items, heads, head, upTo) == front + Repeat(upTo - 1, times);
    }
  }

  lemma AllEdges(items: seq<Item>, heads: seq<nat>, succs: seq<seq<nat>>)
    requires Valid(items) && |succs| == |heads| && forall i :: 0 <= i < |heads| ==> heads[i] < |items|
    requires forall i :: 0 <= i < |heads| ==> succs[i] == EdgesFrom(items, heads, heads[i], |heads|)
    ensures forall i :: 0 <= i < |heads| ==> Rising(succs[i]) && forall j :: j in succs[i] ==> j < |heads|
    ensures forall i, j: nat :: 0 <= i < |heads| && j < |heads| ==>
      multiset(succs[i])[j] == WaysIn(items, heads[j], heads[i])
  {
    hide Valid, Owner, WaysIn, EdgesFrom, Rising;
    forall i, j: nat | 0 <= i < |heads| && j < |heads|
      ensures multiset(succs[i])[j] == WaysIn(items, heads[j], heads[i])
    {
      EdgesCount(items, heads, heads[i], |heads|, j);
    }
    forall i | 0 <= i < |heads| ensures Rising(succs[i]) && forall j :: j in succs[i] ==> j < |heads| {
      EdgesCount(items, heads, heads[i], |heads|, 0);
    }
  }

  lemma NothingRises()
    ensures Rising([])
  {
  }

  lemma RisingAppend(front: seq<nat>, x: nat, times: nat)
    requires Rising(front) && forall t :: t in front ==> t < x
    ensures Rising(front + Repeat(x, times))
  {
    var all := front + Repeat(x, times);
    forall a, b | 0 <= a < b < |all| ensures all[a] <= all[b] {
      if a < |front| { assert all[a] in front; }
    }
  }

  lemma {:induction false} RepeatCount(x: nat, times: nat, j: nat)
    ensures multiset(Repeat(x, times))[j] == if j == x then times else 0
    ensures forall t :: t in Repeat(x, times) ==> t == x
  {
    if times > 0 {
      RepeatCount(x, times - 1, j);
      assert Repeat(x, times) == Repeat(x, times - 1) + [x];
    }
  }

  lemma {:induction false} HeadsMembers(items: seq<Item>, upTo: nat)
    requires upTo <= |items|
    ensures forall n: nat :: n in HeadsUpTo(items, upTo) <==> n < upTo && Heads(items[n])
    ensures forall a, b :: 0 <= a < b < |HeadsUpTo(items, upTo)| ==>
      HeadsUpTo(items, upTo)[a] < HeadsUpTo(items, upTo)[b]
  {
    if upTo > 0 {
      HeadsMembers(items, upTo - 1);
      var front := HeadsUpTo(items, upTo - 1);
      forall a | 0 <= a < |front| ensures front[a] < upTo - 1 { assert front[a] in front; }
    }
  }

  /** A walk up the control inputs from `n` that meets no block head before its end. */
  ghost predicate Upward(items: seq<Item>, walk: seq<nat>) {
    && |walk| >= 2 && (forall k :: 0 <= k < |walk| ==> walk[k] < |items|)
    && (forall k :: 0 <= k < |walk| - 1 ==> items[walk[k]].control == walk[k + 1])
    && (forall k :: 0 < k < |walk| - 1 ==> !Heads(items[walk[k]])) && Heads(items[walk[|walk| - 1]])
  }

  /** The owner is the first head on the way up. */
  lemma {:induction false} OwnerExactly(items: seq<Item>, n: nat, o: nat)
    requires Valid(items) && n < |items|
    ensures Owner(items, n) == o <==> exists walk :: Upward(items, walk) && walk[0] == n && walk[|walk| - 1] == o
    decreases n
  {
    var c := items[n].control;
    if c == NONE {
      forall walk | Upward(items, walk) ensures walk[0] != n { assert items[walk[0]].control == walk[1]; }
    } else if Heads(items[c]) {
      assert Upward(items, [n, c]);
      forall walk | Upward(items, walk) && walk[0] == n ensures walk[|walk| - 1] == c {
        assert walk[1] == c;
      }
      assert [n, c][0] == n && [n, c][|[n, c]| - 1] == c;
    } else {
      OwnerExactly(items, c, o);
      if walk :| Upward(items, walk) && walk[0] == c && walk[|walk| - 1] == o {
        var longer := [n] + walk;
        assert Upward(items, longer) && longer[0] == n && longer[|longer| - 1] == o;
      }
      if walk :| Upward(items, walk) && walk[0] == n && walk[|walk| - 1] == o {
        assert walk[1] == c;
        var rest := walk[1..];
        assert Upward(items, rest) && rest[0] == c && rest[|rest| - 1] == o;
      }
    }
  }

  /** The block heads in creation order, and the edges between their blocks: from one block to another as many as there
      are ways in, the ways into earlier blocks first. */
  method BuildBlocks(items: seq<Item>) returns (heads: seq<nat>, succs: seq<seq<nat>>)
    requires Valid(items)
    ensures heads == HeadsUpTo(items, |items|) && |succs| == |heads|
    ensures forall i :: 0 <= i < |heads| ==> heads[i] < |items|
    ensures forall i :: 0 <= i < |heads| ==> succs[i] == EdgesFrom(items, heads, heads[i], |heads|)
    ensures forall n: nat :: n in heads <==> n < |items| && Heads(items[n])
    ensures forall a, b :: 0 <= a < b < |heads| ==> heads[a] < heads[b]
    ensures forall i :: 0 <= i < |heads| ==> Rising(succs[i]) && forall j :: j in succs[i] ==> j < |heads|
    ensures forall i, j: nat :: 0 <= i < |heads| && j < |heads| ==>
      multiset(succs[i])[j] == WaysIn(items, heads[j], heads[i])
  {
    hide WaysIn, Rising, Sources, Occurrences, Repeat, Owner, Valid;
    heads := [];
    for n := 0 to |items|
      invariant heads == HeadsUpTo(items, n) && forall i :: 0 <= i < |heads| ==> heads[i] < n
    {
      if Heads(items[n]) { heads := heads + [n]; }
    }
    succs := seq(|heads|, _ => []);
    for j := 0 to |heads|
      invariant |succs| == |heads|
      invariant forall i :: 0 <= i < |heads| ==> succs[i] == EdgesFrom(items, heads, heads[i], j)
    {
      var sources := FindSources(items, heads[j]);
      succs := AddEdges(heads, succs, sources, j);
    }
    HeadsMembers(items, |items|);
    AllEdges(items, heads, succs);
  }

  method AddEdges(heads: seq<nat>, succs0: seq<seq<nat>>, sources: seq<int>, j: nat) returns (succs: seq<seq<nat>>)
    requires |succs0| == |heads|
    ensures |succs| == |heads|
    ensures forall i :: 0 <= i < |heads| ==> succs[i] == succs0[i] + Repeat(j, Occurrences(sources, heads[i]))
  {
    succs := succs0;
    assert forall i :: 0 <= i < |heads| ==> succs0[i] + Repeat(j, 0) == succs0[i];
    for s := 0 to |sources|
      invariant |succs| == |heads|
      invariant forall i :: 0 <= i < |heads| ==> succs[i] == succs0[i] + Repeat(j, Occurrences(sources[..s], heads[i]))
    {
      ghost var before := succs;
      assert sources[..s + 1][..s] == sources[..s];
      for i := 0 to |heads|
        invariant |succs| == |heads|
        invariant forall k :: 0 <= k < i ==> succs[k] == if heads[k] == sources[s] then before[k] + [j] else before[k]
        invariant forall k :: i <= k < |heads| ==> succs[k] == before[k]
      {
        if heads[i] == sources[s] { succs := succs[i := succs[i] + [j]]; }
      }
      forall i | 0 <= i < |heads| ensures succs[i] == succs0[i] + Repeat(j, Occurrences(sources[..s + 1], heads[i])) {
        var times := Occurrences(sources[..s], heads[i]);
        assert Repeat(j, times) + [j] == Repeat(j, times + 1);
      }
    }
    assert sources[..|sources|] == sources;
  }
}
