/** Chaitin colouring with spill slots (src/compiler/RegisterAllocator.cpp:373-393, 437-546). */
module Colouring {
  import opened Interference

  /** Registers 0..123 are coloured; 124..126 are scratch and 127 is the escape mark. */
  const K := 124

  ghost function Elements(s: seq<int>): (r: set<int>)
    ensures forall x :: x in r <==> x in s
  {
    set x | x in s
  }

  lemma {:induction false} DistinctCount(s: seq<int>)
    requires NoDuplicates(s)
    ensures |Elements(s)| == |s|
  {
    if s == [] {
      assert Elements(s) == {};
    } else {
      var t := s[..|s| - 1];
      assert s == t + [s[|s| - 1]];
      DistinctCount(t);
      assert Elements(s) == Elements(t) + {s[|s| - 1]};
    }
  }

  /** The lists of the nodes in `active` are duplicate-free, loop-free, symmetric, and name only active nodes. */
  ghost predicate GoodLists(adjList: seq<seq<int>>, active: set<int>) {
    && (forall i :: i in active ==> 0 <= i < |adjList| && NoDuplicates(adjList[i]) && i !in adjList[i])
    && (forall i, j :: i in active && j in adjList[i] ==> j in active && i in adjList[j])
  }

  /** How many neighbours of `v` are still in the graph once `gone` left it. */
  ghost function DegreeWithout(adjList: seq<seq<int>>, gone: set<int>, v: int): nat {
    if 0 <= v < |adjList| then |Elements(adjList[v]) - gone| else 0
  }

  lemma DegreeDrops(adjList: seq<seq<int>>, gone: set<int>, p: int, v: int)
    requires 0 <= v < |adjList| && p !in gone
    ensures DegreeWithout(adjList, gone + {p}, v) ==
      DegreeWithout(adjList, gone, v) - (if p in adjList[v] then 1 else 0)
  {
    var a := Elements(adjList[v]);
    if p in a {
      assert a - gone == (a - (gone + {p})) + {p};
    } else {
      assert a - gone == a - (gone + {p});
    }
  }

  /** Node `t` of the removal order was simplified, not chosen as a spill victim. */
  ghost predicate Simplified(adjList: seq<seq<int>>, order: seq<int>, t: nat)
    requires t < |order|
  {
    DegreeWithout(adjList, Elements(order[..t]), order[t]) < K
  }

  /** At step `t` every node still in the graph had K or more neighbours in it. */
  ghost predicate Stuck(adjList: seq<seq<int>>, order: seq<int>, t: nat)
    requires t <= |order|
  {
    forall s :: t <= s < |order| && 0 <= order[s] < |adjList| ==>
      DegreeWithout(adjList, Elements(order[..t]), order[s]) >= K
  }

  // ----- Rebuilding the lists over classes -----

  /** Contracts the adjacency lists to class representatives. */
  method Contract(cgAdj: seq<seq<int>>, root: seq<int>) returns (adjList: seq<seq<int>>, degree: seq<int>)
    requires |cgAdj| == |root|
    requires forall i, j :: 0 <= i < |cgAdj| && j in cgAdj[i] ==> 0 <= j < |root|
    ensures |adjList| == |degree| == |cgAdj|
    ensures forall i :: 0 <= i < |root| && root[i] == i ==>
      degree[i] == |adjList[i]| && Contracted(cgAdj[i], root, i, adjList[i])
  {
    adjList, degree := cgAdj, seq(|root|, _ => 0);
    for i := 0 to |root|
      invariant |adjList| == |degree| == |cgAdj|
      invariant forall c :: i <= c < |root| ==> adjList[c] == cgAdj[c]
      invariant forall c :: 0 <= c < i && root[c] == c ==>
        degree[c] == |adjList[c]| && Contracted(cgAdj[c], root, c, adjList[c])
    {
      if root[i] == i {
        var row := ContractRow(cgAdj[i], root, i);
        adjList := adjList[i := row];
        degree := degree[i := |row|];
      }
    }
  }

  ghost predicate Contracted(row: seq<int>, root: seq<int>, i: int, short: seq<int>) {
    NoDuplicates(short) && forall r :: r in short <==> r != i && RootIn(row, root, r)
  }

  ghost predicate RootIn(row: seq<int>, root: seq<int>, r: int) {
    exists j :: j in row && 0 <= j < |root| && root[j] == r
  }

  method ContractRow(row: seq<int>, root: seq<int>, i: int) returns (short: seq<int>)
    requires forall j :: j in row ==> 0 <= j < |root|
    ensures Contracted(row, root, i, short)
  {
    short := [];
    for k := 0 to |row|
      invariant Contracted(row[..k], root, i, short)
    {
      assert row[k] in row;
      var r := root[row[k]];
      assert row[..k + 1] == row[..k] + [row[k]];
      ghost var before := short;
      if r != i && r !in short {
        short := short + [r];
      }
      forall x ensures x in short <==> x != i && RootIn(row[..k + 1], root, x) {
        assert x in before <==> x != i && RootIn(row[..k], root, x);
        assert row[k] in row[..k + 1];
      }
    }
    assert row[..|row|] == row;
  }

  // ----- Simplify -----

  ghost function Remaining(removed: seq<bool>): (r: set<int>)
    ensures forall i :: i in r <==> 0 <= i < |removed| && !removed[i]
  {
    set i | 0 <= i < |removed| && !removed[i]
  }

  /** What the simplify loop keeps. */
  ghost predicate Progress(adjList: seq<seq<int>>, removed0: seq<bool>, degree: seq<int>, removed: seq<bool>,
                           order: seq<int>) {
    && |degree| == |removed| == |adjList| == |removed0|
    && NoDuplicates(order) && Elements(order) !! Remaining(removed)
    && Elements(order) + Remaining(removed) == Remaining(removed0)
    && (forall i :: 0 <= i < |removed| && !removed[i] ==> degree[i] == DegreeWithout(adjList, Elements(order), i))
    && (forall t :: 0 <= t < |order| ==> Justified(adjList, removed0, order, t))
  }

  /** The choice of node `t`: few neighbours left, or nobody had few neighbours left. */
  ghost predicate Justified(adjList: seq<seq<int>>, removed0: seq<bool>, order: seq<int>, t: nat)
    requires t < |order|
  {
    Simplified(adjList, order, t) ||
      AllAtLeastK(adjList, Elements(order[..t]), Remaining(removed0) - Elements(order[..t]))
  }

  ghost predicate AllAtLeastK(adjList: seq<seq<int>>, gone: set<int>, left: set<int>) {
    forall i :: i in left ==> DegreeWithout(adjList, gone, i) >= K
  }

  /** Takes the nodes out of the graph one by one: the first with fewer than K neighbours left, or, when there
      is none, one with the most. */
  method Simplify(adjList: seq<seq<int>>, degree0: seq<int>, removed0: seq<bool>, ghost active: set<int>)
    returns (order: seq<int>)
    requires |adjList| == |degree0| == |removed0| && GoodLists(adjList, active) && Remaining(removed0) <= active
    requires forall i :: i in active ==> degree0[i] == |adjList[i]|
    ensures NoDuplicates(order) && Elements(order) == Remaining(removed0)
    ensures forall t :: 0 <= t < |order| ==> Simplified(adjList, order, t) || Stuck(adjList, order, t)
  {
    hide *;
    var degree, removed := degree0, removed0;
    order := [];
    InitialProgress(adjList, degree, removed, active);
    var nodesRemaining := CountRemaining(removed);
    while nodesRemaining > 0
      invariant Progress(adjList, removed0, degree, removed, order)
      invariant nodesRemaining == |Remaining(removed)|
    {
      SomeRemain(removed);
      Lengths(adjList, removed0, degree, removed, order);
      var pick := Pick(degree, removed);
      StillActive(adjList, removed0, degree, removed, order, active, pick);
      var lowered := LowerDegrees(adjList, degree, removed[pick := true], pick, Elements(order));
      StepProgress(adjList, removed0, degree, removed, order, pick, lowered);
      removed := removed[pick := true];
      degree := lowered;
      order := order + [pick];
      nodesRemaining := nodesRemaining - 1;
    }
    AllJustified(adjList, removed0, degree, removed, order);
  }

  lemma InitialProgress(adjList: seq<seq<int>>, degree: seq<int>, removed: seq<bool>, active: set<int>)
    requires |adjList| == |degree| == |removed| && GoodLists(adjList, active) && Remaining(removed) <= active
    requires forall i :: i in active ==> degree[i] == |adjList[i]|
    ensures Progress(adjList, removed, degree, removed, [])
  {
    assert Elements([]) == {};
    forall i | 0 <= i < |removed| && !removed[i] ensures degree[i] == DegreeWithout(adjList, {}, i) {
      assert i in Remaining(removed);
      DistinctCount(adjList[i]);
      assert Elements(adjList[i]) - {} == Elements(adjList[i]);
    }
  }

  lemma Lengths(adjList: seq<seq<int>>, removed0: seq<bool>, degree: seq<int>, removed: seq<bool>, order: seq<int>)
    requires Progress(adjList, removed0, degree, removed, order)
    ensures |degree| == |removed| == |adjList|
  {
  }

  /** What lowering the degrees around `pick` relies on. */
  lemma StillActive(adjList: seq<seq<int>>, removed0: seq<bool>, degree: seq<int>, removed: seq<bool>, order: seq<int>,
                    active: set<int>, pick: int)
    requires GoodLists(adjList, active) && Remaining(removed0) <= active
    requires Progress(adjList, removed0, degree, removed, order) && 0 <= pick < |removed| && !removed[pick]
    ensures |degree| == |removed| == |adjList| && pick !in Elements(order) && NoDuplicates(adjList[pick])
    ensures forall j :: j in adjList[pick] ==> 0 <= j < |adjList|
    ensures forall i :: 0 <= i < |adjList| && !removed[i] ==> (i in adjList[pick] <==> pick in adjList[i])
    ensures forall i :: 0 <= i < |adjList| && !removed[i] ==> degree[i] == DegreeWithout(adjList, Elements(order), i)
  {
    hide DegreeWithout, Justified;
    forall i | 0 <= i < |removed| && !removed[i] ensures i in active && i !in Elements(order) {
      assert i in Remaining(removed);
      assert i in Remaining(removed0);
    }
    assert forall j :: j in adjList[pick] ==> j in active;
  }

  lemma StepProgress(adjList: seq<seq<int>>, removed0: seq<bool>, degree: seq<int>, removed: seq<bool>, order: seq<int>,
                     pick: int, lowered: seq<int>)
    requires Progress(adjList, removed0, degree, removed, order)
    requires 0 <= pick < |removed| && !removed[pick] && |lowered| == |degree|
    requires degree[pick] < K || forall i :: 0 <= i < |removed| && !removed[i] ==> degree[i] >= K
    requires forall i :: 0 <= i < |adjList| && !removed[pick := true][i] ==>
      lowered[i] == DegreeWithout(adjList, Elements(order) + {pick}, i)
    ensures Progress(adjList, removed0, lowered, removed[pick := true], order + [pick])
    ensures |Remaining(removed[pick := true])| == |Remaining(removed)| - 1
  {
    hide DegreeWithout, Justified;
    var left := Remaining(removed);
    assert pick in left;
    assert Remaining(removed[pick := true]) == left - {pick};
    assert Elements(order + [pick]) == Elements(order) + {pick};
    assert Remaining(removed0) - Elements(order) == left;
    PickJustified(adjList, removed0, order, pick);
    forall t | 0 <= t < |order| + 1 ensures Justified(adjList, removed0, order + [pick], t) {
      if t < |order| {
        StaysJustified(adjList, removed0, order, pick, t);
      }
    }
  }

  lemma PickJustified(adjList: seq<seq<int>>, removed0: seq<bool>, order: seq<int>, pick: int)
    requires DegreeWithout(adjList, Elements(order), pick) < K ||
      AllAtLeastK(adjList, Elements(order), Remaining(removed0) - Elements(order))
    ensures Justified(adjList, removed0, order + [pick], |order|)
  {
    assert (order + [pick])[..|order|] == order;
  }

  lemma StaysJustified(adjList: seq<seq<int>>, removed0: seq<bool>, order: seq<int>, pick: int, t: nat)
    requires t < |order| && Justified(adjList, removed0, order, t)
    ensures Justified(adjList, removed0, order + [pick], t)
  {
    assert (order + [pick])[..t] == order[..t];
  }

  lemma AllJustified(adjList: seq<seq<int>>, removed0: seq<bool>, degree: seq<int>, removed: seq<bool>, order: seq<int>)
    requires Progress(adjList, removed0, degree, removed, order) && |Remaining(removed)| == 0
    ensures NoDuplicates(order) && Elements(order) == Remaining(removed0)
    ensures forall t :: 0 <= t < |order| ==> Simplified(adjList, order, t) || Stuck(adjList, order, t)
  {
    assert Remaining(removed) == {};
    forall t | 0 <= t < |order| ensures Simplified(adjList, order, t) || Stuck(adjList, order, t) {
      NobodyLow(adjList, removed0, order, t);
    }
  }

  lemma NobodyLow(adjList: seq<seq<int>>, removed0: seq<bool>, order: seq<int>, t: nat)
    requires t < |order| && NoDuplicates(order) && Elements(order) == Remaining(removed0)
    requires Justified(adjList, removed0, order, t)
    ensures Simplified(adjList, order, t) || Stuck(adjList, order, t)
  {
    if !Simplified(adjList, order, t) {
      forall s | t <= s < |order| ensures DegreeWithout(adjList, Elements(order[..t]), order[s]) >= K {
        assert order[s] in order;
        assert order[s] !in order[..t];
      }
    }
  }

  method CountRemaining(removed: seq<bool>) returns (count: int)
    ensures count == |Remaining(removed)|
  {
    count := 0;
    assert Remaining(removed[..0]) == {};
    for i := 0 to |removed|
      invariant count == |Remaining(removed[..i])|
    {
      assert Remaining(removed[..i + 1]) == Remaining(removed[..i]) + (if removed[i] then {} else {i});
      if !removed[i] {
        count := count + 1;
      }
    }
    assert removed[..|removed|] == removed;
  }

  lemma SomeRemain(removed: seq<bool>)
    ensures |Remaining(removed)| > 0 ==> exists i :: i in Remaining(removed)
  {
    if forall i :: i !in Remaining(removed) {
      assert Remaining(removed) == {};
    }
  }

  method Pick(degree: seq<int>, removed: seq<bool>) returns (pick: int)
    requires |degree| == |removed| && exists i :: i in Remaining(removed)
    ensures 0 <= pick < |removed| && !removed[pick]
    ensures degree[pick] < K || forall i :: 0 <= i < |removed| && !removed[i] ==> K <= degree[i] <= degree[pick]
  {
    pick := -1;
    for i := 0 to |removed|
      invariant pick == -1 && forall j :: 0 <= j < i && !removed[j] ==> degree[j] >= K
    {
      if !removed[i] && degree[i] < K {
        pick := i;
        return;
      }
    }
    ghost var some :| some in Remaining(removed);
    var maxDeg := -1;
    for i := 0 to |removed|
      invariant pick == -1 ==> maxDeg == -1 && forall j :: 0 <= j < i ==> removed[j]
      invariant pick != -1 ==> 0 <= pick < i && !removed[pick] && maxDeg == degree[pick]
      invariant forall j :: 0 <= j < i && !removed[j] ==> degree[j] <= maxDeg
    {
      if !removed[i] && degree[i] > maxDeg {
        maxDeg := degree[i];
        pick := i;
      }
    }
  }

  method LowerDegrees(adjList: seq<seq<int>>, degree0: seq<int>, removed: seq<bool>, pick: int, ghost gone: set<int>)
    returns (degree: seq<int>)
    requires |degree0| == |removed| == |adjList| && 0 <= pick < |adjList| && removed[pick] && pick !in gone
    requires NoDuplicates(adjList[pick])
    requires forall j :: j in adjList[pick] ==> 0 <= j < |adjList|
    requires forall i :: 0 <= i < |adjList| && !removed[i] ==> (i in adjList[pick] <==> pick in adjList[i])
    requires forall i :: 0 <= i < |adjList| && !removed[i] ==> degree0[i] == DegreeWithout(adjList, gone, i)
    ensures |degree| == |degree0|
    ensures forall i :: 0 <= i < |adjList| && !removed[i] ==> degree[i] == DegreeWithout(adjList, gone + {pick}, i)
  {
    degree := degree0;
    var row := adjList[pick];
    for k := 0 to |row|
      invariant |degree| == |degree0|
      invariant forall i :: 0 <= i < |adjList| && !removed[i] ==>
        degree[i] == degree0[i] - (if i in row[..k] then 1 else 0)
    {
      assert row[k] in row && row[k] !in row[..k];
      assert row[..k + 1] == row[..k] + [row[k]];
      if !removed[row[k]] {
        degree := degree[row[k] := degree[row[k]] - 1];
      }
    }
    assert row[..|row|] == row;
    forall i | 0 <= i < |adjList| && !removed[i] ensures degree[i] == DegreeWithout(adjList, gone + {pick}, i) {
      DegreeDrops(adjList, gone, pick, i);
    }
  }

  // ----- Select -----

  /** No node of `done` shares its colour with a coloured neighbour. */
  ghost predicate Proper(adjList: seq<seq<int>>, color: seq<int>, done: set<int>) {
    forall v, w :: v in done && 0 <= v < |color| && 0 <= v < |adjList| && w in adjList[v] && 0 <= w < |color| ==>
      color[w] != -1 ==> color[v] != color[w]
  }

  /** A neighbour has colour `c`. */
  ghost predicate TakenBy(neighbours: seq<int>, color: seq<int>, c: int) {
    exists w :: w in neighbours && 0 <= w < |color| && color[w] == c
  }

  /** `v` has the colour of a hint or the least that its neighbours leave free; a spilled one finds all taken. */
  ghost predicate WellChosen(adjList: seq<seq<int>>, hints: seq<seq<int>>, color: seq<int>, v: int) {
    0 <= v < |color| == |adjList| == |hints| ==>
      (color[v] < K && exists h :: h in hints[v] && 0 <= h < |color| && color[h] == color[v]) ||
      forall c :: 0 <= c < K && c < color[v] ==> TakenBy(adjList[v], color, c)
  }

  /** Colours never change, so a place stays right. */
  lemma ChosenStays(adjList: seq<seq<int>>, hints: seq<seq<int>>, color: seq<int>, v: int, c: int, x: int)
    requires 0 <= v < |color| && color[v] == -1 && x != v && WellChosen(adjList, hints, color, x)
    requires 0 <= x < |color| && color[x] != -1
    ensures WellChosen(adjList, hints, color[v := c], x)
  {
    if |color| == |adjList| == |hints| {
      var after := color[v := c];
      forall d | 0 <= d < K && TakenBy(adjList[x], color, d) ensures TakenBy(adjList[x], after, d) {
        var w :| w in adjList[x] && 0 <= w < |color| && color[w] == d;
        assert after[w] == d;
      }
      if color[x] < K && exists h :: h in hints[x] && 0 <= h < |color| && color[h] == color[x] {
        var h :| h in hints[x] && 0 <= h < |color| && color[h] == color[x];
        assert after[h] == after[x];
      }
    }
  }

  /** What the select loop keeps once `order[top..]` is coloured; colours so far stay below `limit`. */
  ghost predicate Selected(adjList: seq<seq<int>>, order: seq<int>, top: nat, pre: seq<int>, color: seq<int>,
                           limit: int)
    requires top <= |order|
  {
    && |color| == |pre| && limit >= 128
    && (forall v :: 0 <= v < |pre| && v !in order[top..] ==> color[v] == pre[v])
    && (forall v :: 0 <= v < |pre| ==> -1 <= color[v] < limit)
    && Proper(adjList, color, Elements(order[top..]))
    && (forall t :: top <= t < |order| ==> 0 <= order[t] < |pre|)
    && (forall t :: top <= t < |order| ==> 0 <= color[order[t]] < K || color[order[t]] >= 128)
    && (forall t :: top <= t < |order| && Simplified(adjList, order, t) ==> color[order[t]] < K)
    && (forall t, w :: top <= t < |order| && 0 <= w < |color| && w != order[t] && color[order[t]] >= 128 ==>
         color[order[t]] != color[w])
  }

  /** Colouring the node on top of the stack with a colour its neighbours leave free, or with a fresh spill slot. */
  lemma SelectStep(adjList: seq<seq<int>>, order: seq<int>, top: nat, pre: seq<int>, color: seq<int>, limit: int,
                   c: int,
                   active: set<int>)
    requires top < |order| && Selected(adjList, order, top + 1, pre, color, limit)
    requires GoodLists(adjList, active) && Elements(order) <= active && |adjList| == |pre| && NoDuplicates(order)
    requires 0 <= order[top] < |pre|
    requires (0 <= c < K && forall w :: w in adjList[order[top]] && 0 <= w < |color| ==> color[w] != c)
          || (c == limit && !Simplified(adjList, order, top))
    ensures Selected(adjList, order, top, pre, color[order[top] := c], if c < K then limit else limit + 1)
  {
    hide DegreeWithout, Simplified;
    var v := order[top];
    assert order[top..] == [v] + order[top + 1..];
    assert v in order && v in active && v !in order[top + 1..];
    StaysProper(adjList, color, order[top + 1..], v, c, active);
    assert Elements(order[top..]) == Elements(order[top + 1..]) + {v};
    forall t | top + 1 <= t < |order| ensures order[t] != v { }
  }

  /** Pops the nodes in reverse order and colours each against its coloured neighbours. */
  method Select(adjList: seq<seq<int>>, order: seq<int>, pre: seq<int>, hints: seq<seq<int>>, ghost active: set<int>)
    returns (color: seq<int>)
    requires |adjList| == |pre| && GoodLists(adjList, active) && HintsBounded(hints, |pre|)
    requires NoDuplicates(order) && Elements(order) <= active
    requires forall t :: 0 <= t < |order| ==> 0 <= order[t] < |pre| && pre[order[t]] == -1
    requires forall v :: 0 <= v < |pre| ==> pre[v] >= -1
    ensures |color| == |pre| && Proper(adjList, color, Elements(order))
    ensures forall v :: 0 <= v < |pre| && v !in order ==> color[v] == pre[v]
    ensures forall t :: 0 <= t < |order| ==> 0 <= color[order[t]] < K || color[order[t]] >= 128
    ensures forall t :: 0 <= t < |order| && Simplified(adjList, order, t) ==> color[order[t]] < K
    ensures forall t, w :: 0 <= t < |order| && 0 <= w < |color| && w != order[t] && color[order[t]] >= 128 ==>
      color[order[t]] != color[w]
    ensures forall t :: 0 <= t < |order| ==> WellChosen(adjList, hints, color, order[t])
  {
    hide DegreeWithout, Simplified, WellChosen;
    color := pre;
    var maxPreColor := MaxColour(pre);
    var spillCount := maxPreColor - 127;
    var top := |order|;
    assert order[top..] == [];
    while top > 0
      invariant 0 <= top <= |order| && Selected(adjList, order, top, pre, color, 128 + spillCount)
      invariant forall t :: top <= t < |order| ==> WellChosen(adjList, hints, color, order[t])
    {
      hide DegreeWithout, Simplified, Proper, FirstHint, TakenBy;
      top := top - 1;
      var v := order[top];
      assert v in order;
      assert forall w :: w in adjList[v] ==> w in active;
      var used := UsedColours(adjList[v], color);
      var c := Choose(hints[v], color, used);
      if c == -1 {
        AllBlocked(adjList, order, top, pre, color, 128 + spillCount, used);
        c := 128 + spillCount;
        SelectStep(adjList, order, top, pre, color, 128 + spillCount, c, active);
        spillCount := spillCount + 1;
      } else {
        SelectStep(adjList, order, top, pre, color, 128 + spillCount, c, active);
      }
      assert forall d :: d in used ==> TakenBy(adjList[v], color, d) by { AllTaken(adjList[v], color, used); }
      ChoiceStep(adjList, order, top, pre, hints, color, c, used);
      color := color[v := c];
    }
    assert order[0..] == order;
  }

  lemma AllTaken(neighbours: seq<int>, color: seq<int>, used: set<int>)
    requires forall c :: c in used ==> exists w :: w in neighbours && 0 <= w < |color| && color[w] == c
    ensures forall c :: c in used ==> TakenBy(neighbours, color, c)
  {
  }

  /** The colour just chosen is right, and those chosen before stay right. */
  lemma ChoiceStep(adjList: seq<seq<int>>, order: seq<int>, top: nat, pre: seq<int>, hints: seq<seq<int>>,
                  color: seq<int>, c: int, used: set<int>)
    requires top < |order| && |adjList| == |pre| == |hints| == |color| && NoDuplicates(order)
    requires forall t :: 0 <= t < |order| ==> 0 <= order[t] < |pre|
    requires color[order[top]] == -1 && forall t :: top < t < |order| ==> color[order[t]] != -1
    requires forall t :: top + 1 <= t < |order| ==> WellChosen(adjList, hints, color, order[t])
    requires order[top] !in adjList[order[top]]
    requires forall d :: d in used ==> TakenBy(adjList[order[top]], color, d)
    requires FirstHint(hints[order[top]], color, used, c) || forall d :: 0 <= d < K && d < c ==> d in used
    ensures forall t :: top <= t < |order| ==> WellChosen(adjList, hints, color[order[top] := c], order[t])
  {
    var v := order[top];
    var after := color[v := c];
    assert WellChosen(adjList, hints, after, v) by {
      forall d | 0 <= d < K && TakenBy(adjList[v], color, d) ensures TakenBy(adjList[v], after, d) {
        var w :| w in adjList[v] && 0 <= w < |color| && color[w] == d;
        assert after[w] == d;
      }
      if FirstHint(hints[v], color, used, c) {
        var i: nat :| FreeHint(hints[v], color, used, i) && color[hints[v][i]] == c;
        assert hints[v][i] in hints[v] && after[hints[v][i]] == c && after[v] == c;
      }
    }
    hide WellChosen;
    forall t | top < t < |order| ensures WellChosen(adjList, hints, after, order[t]) {
      ChosenStays(adjList, hints, color, v, c, order[t]);
    }
  }

  lemma AllBlocked(adjList: seq<seq<int>>, order: seq<int>, top: nat, pre: seq<int>, color: seq<int>, limit: int,
                   used: set<int>)
    requires top < |order| && |adjList| == |pre| && Selected(adjList, order, top + 1, pre, color, limit)
    requires NoDuplicates(order)
    requires forall t :: 0 <= t < |order| ==> 0 <= order[t] < |pre| && pre[order[t]] == -1
    requires forall w :: w in adjList[order[top]] ==> 0 <= w < |color| && w != order[top]
    requires forall c :: c in used <==>
      0 <= c < K && exists w :: w in adjList[order[top]] && 0 <= w < |color| && color[w] == c
    requires forall c :: 0 <= c < K ==> c in used
    ensures !Simplified(adjList, order, top)
  {
    hide DegreeWithout, Simplified, Proper;
    var v := order[top];
    forall w | w in order[..top] ensures 0 <= w < |color| && color[w] == -1 {
      var j :| 0 <= j < top && order[j] == w;
      assert w !in order[top + 1..];
    }
    forall i | i in Range(K) ensures Blocked(adjList[v], order[..top], color, i) {
      assert i in used;
      var w :| w in adjList[v] && 0 <= w < |color| && color[w] == i;
    }
    NotSimplified(adjList, order, top, color);
  }

  lemma {:induction false} ImageSize(s: set<int>, color: seq<int>, image: set<int>)
    requires forall w :: w in s ==> 0 <= w < |color|
    requires forall c :: c in image ==> exists w :: w in s && color[w] == c
    ensures |image| <= |s|
  {
    if forall c :: c !in image {
      assert image == {};
    } else {
      var c :| c in image;
      var w :| w in s && color[w] == c;
      forall d | d in image - {c} ensures exists x :: x in s - {w} && color[x] == d {
        var x :| x in s && color[x] == d;
      }
      ImageSize(s - {w}, color, image - {c});
    }
  }

  ghost function Range(k: nat): (r: set<int>)
    ensures |r| == k && forall c :: c in r <==> 0 <= c < k
  {
    if k == 0 then {} else Range(k - 1) + {k - 1}
  }

  /** Some neighbour outside `gone` has colour `c`. */
  ghost predicate Blocked(neighbours: seq<int>, gone: seq<int>, color: seq<int>, c: int) {
    exists w :: w in neighbours && w !in gone && 0 <= w < |color| && color[w] == c
  }

  /** When the neighbours of the popped node use all K colours, it had K neighbours left when it was picked. */
  lemma NotSimplified(adjList: seq<seq<int>>, order: seq<int>, t: nat, color: seq<int>)
    requires t < |order| && |adjList| == |color| && 0 <= order[t] < |adjList|
    requires forall w :: w in adjList[order[t]] ==> 0 <= w < |color|
    requires forall i :: i in Range(K) ==> Blocked(adjList[order[t]], order[..t], color, i)
    ensures !Simplified(adjList, order, t)
  {
    var left := Elements(adjList[order[t]]) - Elements(order[..t]);
    forall c | c in Range(K) ensures exists w :: w in left && color[w] == c {
      var w :| w in adjList[order[t]] && w !in order[..t] && color[w] == c;
      assert w in left;
    }
    ImageSize(left, color, Range(K));
  }

  lemma StaysProper(adjList: seq<seq<int>>, color: seq<int>, done: seq<int>, v: int, c: int, active: set<int>)
    requires |adjList| == |color| && GoodLists(adjList, active) && v in active && Elements(done) <= active && v !in done
    requires Proper(adjList, color, Elements(done)) && c != -1
    requires forall w :: w in adjList[v] && 0 <= w < |color| && color[w] != -1 ==> color[w] != c
    ensures Proper(adjList, color[v := c], Elements(done) + {v})
  {
  }

  method MaxColour(pre: seq<int>) returns (m: int)
    ensures m >= 127 && forall v :: 0 <= v < |pre| ==> pre[v] <= m
  {
    m := 127;
    for i := 0 to |pre|
      invariant m >= 127 && forall v :: 0 <= v < i ==> pre[v] <= m
    {
      if pre[i] > m {
        m := pre[i];
      }
    }
  }

  /** usedColors: the register colours (below K) of the neighbours. */
  method UsedColours(neighbours: seq<int>, color: seq<int>) returns (used: set<int>)
    requires forall w :: w in neighbours ==> 0 <= w < |color| && color[w] >= -1
    ensures forall c :: c in used <==> 0 <= c < K && exists w :: w in neighbours && 0 <= w < |color| && color[w] == c
  {
    used := {};
    for i := 0 to |neighbours|
      invariant forall c :: c in used <==>
        0 <= c < K && exists j :: 0 <= j < i && 0 <= neighbours[j] < |color| && color[neighbours[j]] == c
    {
      var w := neighbours[i];
      assert w in neighbours;
      if color[w] != -1 && color[w] < K {
        used := used + {color[w]};
      }
    }
  }

  ghost predicate FreeHint(hints: seq<int>, color: seq<int>, used: set<int>, i: nat) {
    i < |hints| && 0 <= hints[i] < |color| && 0 <= color[hints[i]] < K && color[hints[i]] !in used
  }

  /** `c` is the colour of the first hint that is free. */
  ghost predicate FirstHint(hints: seq<int>, color: seq<int>, used: set<int>, c: int) {
    exists i: nat :: FreeHint(hints, color, used, i) && color[hints[i]] == c &&
      forall j: nat :: j < i ==> !FreeHint(hints, color, used, j)
  }

  /** The first free colour among the move hints, else the least free colour, else -1. */
  method Choose(hints: seq<int>, color: seq<int>, used: set<int>) returns (c: int)
    requires forall h :: h in hints ==> 0 <= h < |color| && color[h] >= -1
    ensures c == -1 || (0 <= c < K && c !in used)
    ensures c == -1 ==> forall i :: 0 <= i < K ==> i in used
    ensures FirstHint(hints, color, used, c) || forall i :: 0 <= i < |hints| ==> !FreeHint(hints, color, used, i)
    ensures FirstHint(hints, color, used, c) || forall i :: 0 <= i < c ==> i in used
  {
    for i := 0 to |hints|
      invariant forall j :: 0 <= j < i ==> !FreeHint(hints, color, used, j)
    {
      assert hints[i] in hints;
      var hint := color[hints[i]];
      if hint != -1 && hint < K && hint !in used {
        return hint;
      }
    }
    for i := 0 to K
      invariant forall j :: 0 <= j < i ==> j in used
    {
      if i !in used {
        return i;
      }
    }
    c := -1;
  }
}
