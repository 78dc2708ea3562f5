/** Liveness analysis with the try/catch extension (src/compiler/RegisterAllocator.cpp:237-371). */
module Liveness {
  import opened AllocatorIR

  // ----- Local use and def sets -----

  /** The registers written by the first `k` instructions of block `b`; pool constants are skipped. */
  function DefsUpTo<V>(g: Graph<V>, consts: set<int>, b: nat, k: nat): set<int>
    requires k <= |g.Instructions(b)|
  {
    if k == 0 then {} else DefsUpTo(g, consts, b, k - 1) + (g.Writes(g.Instructions(b)[k - 1]) - consts)
  }

  /** The registers the first `k` instructions read before writing them. */
  function UsesUpTo<V>(g: Graph<V>, consts: set<int>, b: nat, k: nat): set<int>
    requires k <= |g.Instructions(b)|
  {
    if k == 0 then {} else
      UsesUpTo(g, consts, b, k - 1) + (g.Reads(consts, g.Instructions(b)[k - 1]) - DefsUpTo(g, consts, b, k - 1))
  }

  function Def<V>(g: Graph<V>, consts: set<int>, b: nat): set<int> {
    DefsUpTo(g, consts, b, |g.Instructions(b)|)
  }

  function Use<V>(g: Graph<V>, consts: set<int>, b: nat): set<int> {
    UsesUpTo(g, consts, b, |g.Instructions(b)|)
  }

  method UseDef<V>(g: Graph<V>, consts: set<int>) returns (use: seq<set<int>>, def: seq<set<int>>)
    requires g.Valid() && consts == g.PlainConstants()
    ensures |use| == |def| == |g.blocks|
    ensures forall b :: 0 <= b < |g.blocks| ==> use[b] == Use(g, consts, b) && def[b] == Def(g, consts, b)
  {
    use, def := [], [];
    for b := 0 to |g.blocks|
      invariant |use| == |def| == b
      invariant forall c :: 0 <= c < b ==> use[c] == Use(g, consts, c) && def[c] == Def(g, consts, c)
    {
      var u, d: set<int> := {}, {};
      var code := g.blocks[b].instructions;
      for k := 0 to |code|
        invariant d == DefsUpTo(g, consts, b, k) && u == UsesUpTo(g, consts, b, k)
      {
        var n := code[k];
        if g.nodes[n].vreg != NO_REG && g.nodes[n].vreg in consts {
          ConstantsReadNothing(g, consts, n);
          continue;
        }
        u := u + (g.Reads(consts, n) - d);
        if g.nodes[n].vreg != NO_REG {
          d := d + {g.nodes[n].vreg};
        }
      }
      use, def := use + [u], def + [d];
    }
  }

  lemma ConstantsReadNothing<V>(g: Graph<V>, consts: set<int>, n: nat)
    requires g.Valid() && consts == g.PlainConstants() && n < |g.nodes| && g.nodes[n].vreg in consts
    ensures g.IsPlainConstant(n) && g.Reads(consts, n) == {} && g.MoveSource(n) == NO_REG && g.nodes[n].op.Constant?
  {
    var m :| 0 <= m < |g.nodes| && g.IsPlainConstant(m) && g.nodes[m].vreg == g.nodes[n].vreg;
  }

  // ----- Try regions -----

  /** The handler of a try block: its first successor that starts with a Catch. */
  function HandlerFrom<V>(g: Graph<V>, succs: seq<nat>): (h: int)
    ensures h >= 0 ==> h in succs
  {
    if succs == [] then -1
    else if StartsWith(g, succs[0], Catch) then succs[0]
    else HandlerFrom(g, succs[1..])
  }

  predicate StartsWith<V>(g: Graph<V>, b: nat, op: Op) {
    var code := g.Instructions(b);
    |code| > 0 && code[0] < |g.nodes| && g.nodes[code[0]].op == op
  }

  /** Block `c` is reached from the try block `t` without entering the handler `h`. */
  least predicate InRegion<V>[nat](g: Graph<V>, t: nat, h: nat, c: nat) {
    c != h && (c == t || exists p: nat :: p < |g.blocks| && InRegion(g, t, h, p) && c in g.Succs(p))
  }

  /** An exception raised in block `c` may continue in handler block `h`. */
  ghost predicate Guards<V>(g: Graph<V>, h: nat, c: nat) {
    exists t: nat :: t < |g.blocks| && StartsWith(g, t, TryBegin) && HandlerFrom(g, g.Succs(t)) == h &&
      InRegion(g, t, h, c)
  }

  ghost predicate GuardsFrom<V>(g: Graph<V>, upTo: nat, h: nat, c: nat) {
    exists t: nat :: t < upTo && t < |g.blocks| && StartsWith(g, t, TryBegin) && HandlerFrom(g, g.Succs(t)) == h &&
      InRegion(g, t, h, c)
  }

  /** Collects, for every block, the handlers of the try regions it lies in. */
  method TryRegions<V>(g: Graph<V>) returns (extra: seq<set<nat>>)
    requires g.Valid()
    ensures |extra| == |g.blocks|
    ensures forall c, h: nat :: 0 <= c < |g.blocks| ==> (h in extra[c] <==> Guards(g, h, c))
  {
    extra := seq(|g.blocks|, _ => {});
    for t := 0 to |g.blocks|
      invariant |extra| == |g.blocks|
      invariant forall c, h: nat :: 0 <= c < |g.blocks| ==> (h in extra[c] <==> GuardsFrom(g, t, h, c))
    {
      var h := HandlerFrom(g, g.blocks[t].succs);
      ghost var before := extra;
      if StartsWith(g, t, TryBegin) && h >= 0 {
        var seen := Region(g, t, h);
        extra := seq(|g.blocks|, c requires 0 <= c < |g.blocks| => if c in seen then extra[c] + {h} else extra[c]);
      }
      forall c, h': nat | 0 <= c < |g.blocks|
        ensures h' in extra[c] <==> GuardsFrom(g, t + 1, h', c)
      {
        assert h' in before[c] <==> GuardsFrom(g, t, h', c);
      }
    }
    forall c, h: nat | 0 <= c < |g.blocks| ensures h in extra[c] <==> Guards(g, h, c) {
      assert GuardsFrom(g, |g.blocks|, h, c) <==> Guards(g, h, c);
    }
  }

  function BlockIds(count: nat): (r: set<nat>)
    ensures forall b: nat :: b in r <==> b < count
  {
    if count == 0 then {} else BlockIds(count - 1) + {count - 1}
  }

  /** Forward worklist traversal from the try block, skipping the handler. */
  method Region<V>(g: Graph<V>, t: nat, h: nat) returns (seen: set<nat>)
    requires g.Valid() && t < |g.blocks| && h < |g.blocks|
    ensures forall c: nat :: c in seen <==> c < |g.blocks| && InRegion(g, t, h, c)
  {
    hide InRegion, Pending;
    seen := {};
    var work: seq<nat> := [t];
    RegionSteps(g, t, h);
    while work != []
      invariant seen <= BlockIds(|g.blocks|) && h !in seen
      invariant forall c :: c in work ==> Pending(g, t, h, c)
      invariant forall c :: c in seen ==> InRegion(g, t, h, c)
      invariant forall p, c :: p in seen && c in g.Succs(p) ==> c == h || c in seen || c in work
      invariant t == h || t in seen || t in work
      decreases BlockIds(|g.blocks|) - seen, |work|
    {
      var cur, rest := work[|work| - 1], work[..|work| - 1];
      Unstack(work);
      work := rest;
      if cur in seen || cur == h {
        continue;
      }
      seen := seen + {cur};
      work := PushUnseen(g.blocks[cur].succs, seen, work);
    }
    forall c: nat | InRegion(g, t, h, c) ensures c in seen && c < |g.blocks| {
      RegionIsSeen(g, t, h, c, seen);
    }
  }

  /** What the worklist may hold: the handler, or a block of the region. */
  ghost predicate Pending<V>(g: Graph<V>, t: nat, h: nat, c: nat) {
    c < |g.blocks| && (c == h || InRegion(g, t, h, c))
  }

  lemma RegionSteps<V>(g: Graph<V>, t: nat, h: nat)
    requires g.Valid() && t < |g.blocks|
    ensures Pending(g, t, h, t)
    ensures forall p: nat :: Pending(g, t, h, p) ==> p < |g.blocks| && (p != h ==> InRegion(g, t, h, p))
    ensures forall p: nat, c: nat :: InRegion(g, t, h, p) && p < |g.blocks| && c in g.Succs(p) ==> Pending(g, t, h, c)
  {
  }

  lemma Unstack(work: seq<nat>)
    requires work != []
    ensures forall c :: c in work <==> c == work[|work| - 1] || c in work[..|work| - 1]
  {
    assert work == work[..|work| - 1] + [work[|work| - 1]];
  }

  method PushUnseen(succs: seq<nat>, seen: set<nat>, work: seq<nat>) returns (r: seq<nat>)
    ensures forall c :: c in work ==> c in r
    ensures forall c :: c in r ==> c in work || c in succs
    ensures forall c :: c in succs ==> c in seen || c in r
  {
    r := work;
    for i := 0 to |succs|
      invariant forall c :: c in work ==> c in r
      invariant forall c :: c in r ==> c in work || c in succs
      invariant forall j :: 0 <= j < i ==> succs[j] in seen || succs[j] in r
    {
      if succs[i] !in seen {
        r := r + [succs[i]];
      }
    }
  }

  least lemma RegionIsSeen<V>[nat](g: Graph<V>, t: nat, h: nat, c: nat, seen: set<nat>)
    requires g.Valid()
    requires InRegion(g, t, h, c)
    requires t == h || t in seen
    requires forall p, c' :: p in seen && c' in g.Succs(p) ==> c' == h || c' in seen
    ensures c in seen
  {
  }

  // ----- Global liveness -----

  /** Control can leave block `b` for block `s`, by a branch or by an exception. */
  predicate Flows<V>(g: Graph<V>, extra: seq<set<nat>>, b: nat, s: nat) {
    s in g.Succs(b) || (b < |extra| && s in extra[b])
  }

  /** Register `v` is live at the start of block `b`: some run from `b` reads it before writing it. */
  least predicate LiveAtStart<V>[nat](g: Graph<V>, extra: seq<set<nat>>, use: seq<set<int>>, def: seq<set<int>>, b: nat,
                                      v: int) {
    b < |use| && b < |def| &&
    (v in use[b] ||
     (v !in def[b] && exists s: nat :: Flows(g, extra, b, s) && LiveAtStart(g, extra, use, def, s, v)))
  }

  ghost predicate LiveAtEnd<V>(g: Graph<V>, extra: seq<set<nat>>, use: seq<set<int>>, def: seq<set<int>>, b: nat,
                               v: int) {
    exists s: nat :: Flows(g, extra, b, s) && LiveAtStart(g, extra, use, def, s, v)
  }

  /** The equations the analysis iterates to. */
  ghost predicate Stable<V>(g: Graph<V>, extra: seq<set<nat>>, use: seq<set<int>>, def: seq<set<int>>,
                      liveIn: seq<set<int>>, liveOut: seq<set<int>>, b: nat)
    requires |use| == |def| == |liveIn| == |liveOut| && b < |use|
  {
    && (forall s: nat :: s < |liveIn| && Flows(g, extra, b, s) ==> liveIn[s] <= liveOut[b])
    && liveIn[b] == use[b] + (liveOut[b] - def[b])
  }

  /** Everything recorded so far is really live. */
  ghost predicate Sound<V>(g: Graph<V>, extra: seq<set<nat>>, use: seq<set<int>>, def: seq<set<int>>,
                           liveIn: seq<set<int>>, liveOut: seq<set<int>>) {
    && |liveIn| == |liveOut| == |g.blocks|
    && (forall b, v :: 0 <= b < |liveIn| && v in liveIn[b] ==> LiveAtStart(g, extra, use, def, b, v))
    && (forall b, v :: 0 <= b < |liveOut| && v in liveOut[b] ==> LiveAtEnd(g, extra, use, def, b, v))
  }

  /** The bits set in the two tables, and all the bits that could ever be set: the loop's measure. */
  ghost function Bits(liveIn: seq<set<int>>, liveOut: seq<set<int>>): set<(bool, int, int)> {
    (set b, v | 0 <= b < |liveIn| && v in liveIn[b] :: (false, b, v)) +
    (set b, v | 0 <= b < |liveOut| && v in liveOut[b] :: (true, b, v))
  }

  ghost function AllBits(count: nat, regs: set<int>): set<(bool, int, int)> {
    set f, b, v | f in {false, true} && 0 <= b < count && v in regs :: (f, b, v)
  }

  ghost predicate Within(rows: seq<set<int>>, regs: set<int>) {
    forall b :: 0 <= b < |rows| ==> rows[b] <= regs
  }

  ghost function Union(rows: seq<set<int>>): (r: set<int>)
    ensures Within(rows, r) && forall v :: v in r ==> exists b :: 0 <= b < |rows| && v in rows[b]
  {
    if rows == [] then {} else
      var rest := Union(rows[1..]);
      assert forall v :: v in rest ==>
        exists b :: 0 <= b < |rows[1..]| && v in rows[1..][b] && rows[b + 1] == rows[1..][b];
      rest + rows[0]
  }

  /** `out` together with what is live at the start of every block that `b` flows to. */
  method Gather<V>(g: Graph<V>, extra: seq<set<nat>>, liveIn: seq<set<int>>, b: nat, before: set<int>)
    returns (out: set<int>)
    requires g.Valid() && b < |g.blocks| == |liveIn| == |extra|
    requires forall h :: h in extra[b] ==> h < |g.blocks|
    ensures forall v :: v in out <==>
      v in before || exists s: nat :: s < |liveIn| && Flows(g, extra, b, s) && v in liveIn[s]
  {
    out := before;
    var succs := g.blocks[b].succs;
    for i := 0 to |succs|
      invariant forall v :: v in out <==> v in before || exists j :: 0 <= j < i && v in liveIn[succs[j]]
    {
      out := out + liveIn[succs[i]];
    }
    ghost var mid := out;
    assert forall v :: v in mid <==> v in before || exists s: nat :: s < |liveIn| && s in succs && v in liveIn[s];
    var handlers := extra[b];
    while handlers != {}
      invariant handlers <= extra[b]
      invariant forall v :: v in out <==> v in mid || exists h :: h in extra[b] - handlers && v in liveIn[h]
      decreases handlers
    {
      var h :| h in handlers;
      handlers := handlers - {h};
      out := out + liveIn[h];
    }
  }

  lemma StepSound<V>(g: Graph<V>, extra: seq<set<nat>>, use: seq<set<int>>, def: seq<set<int>>, liveIn: seq<set<int>>,
                     liveOut: seq<set<int>>, b: nat, out: set<int>)
    requires Sound(g, extra, use, def, liveIn, liveOut) && b < |g.blocks| == |use| == |def|
    requires forall v :: v in out ==>
      v in liveOut[b] || exists s: nat :: s < |liveIn| && Flows(g, extra, b, s) && v in liveIn[s]
    ensures Sound(g, extra, use, def, liveIn[b := use[b] + (out - def[b])], liveOut[b := out])
  {
    forall v | v in out ensures LiveAtEnd(g, extra, use, def, b, v) { }
  }

  /** The backward fixpoint loop computes exactly the live registers. */
  method Analyse<V>(g: Graph<V>, extra: seq<set<nat>>, use: seq<set<int>>, def: seq<set<int>>)
    returns (liveIn: seq<set<int>>, liveOut: seq<set<int>>)
    requires g.Valid() && |extra| == |use| == |def| == |g.blocks|
    requires forall b, h :: 0 <= b < |g.blocks| && h in extra[b] ==> h < |g.blocks|
    ensures |liveIn| == |liveOut| == |g.blocks|
    ensures forall b :: 0 <= b < |g.blocks| ==> Stable(g, extra, use, def, liveIn, liveOut, b)
    ensures forall b, v :: 0 <= b < |g.blocks| ==> (v in liveIn[b] <==> LiveAtStart(g, extra, use, def, b, v))
    ensures forall b, v :: 0 <= b < |g.blocks| ==> (v in liveOut[b] <==> LiveAtEnd(g, extra, use, def, b, v))
    ensures forall b, v :: 0 <= b < |g.blocks| && v in liveOut[b] ==> exists c :: 0 <= c < |use| && v in use[c]
  {
    hide LiveAtStart, LiveAtEnd, Bits, AllBits;
    var count := |g.blocks|;
    liveIn := seq(count, _ => {});
    liveOut := seq(count, _ => {});
    ghost var regs := Union(use);
    var changed := true;
    while changed
      invariant Sound(g, extra, use, def, liveIn, liveOut)
      invariant Within(liveIn, regs) && Within(liveOut, regs)
      invariant forall b :: 0 <= b < count ==> liveIn[b] <= use[b] + (liveOut[b] - def[b])
      invariant !changed ==> forall b :: 0 <= b < count ==> Stable(g, extra, use, def, liveIn, liveOut, b)
      decreases AllBits(count, regs) - Bits(liveIn, liveOut), changed
    {
      changed := false;
      ghost var inStart, outStart := liveIn, liveOut;
      for i := count downto 0
        invariant Sound(g, extra, use, def, liveIn, liveOut)
        invariant Within(liveIn, regs) && Within(liveOut, regs)
        invariant forall b :: 0 <= b < count ==> liveIn[b] <= use[b] + (liveOut[b] - def[b])
        invariant !changed ==> liveIn == inStart && liveOut == outStart
        invariant changed ==>
          AllBits(count, regs) - Bits(liveIn, liveOut) < AllBits(count, regs) - Bits(inStart, outStart)
        invariant !changed ==> forall b :: i <= b < count ==> Stable(g, extra, use, def, liveIn, liveOut, b)
      {
        var out := Gather(g, extra, liveIn, i, liveOut[i]);
        var newIn := use[i] + (out - def[i]);
        StepSound(g, extra, use, def, liveIn, liveOut, i, out);
        ghost var oldOut, oldIn := liveOut[i], liveIn[i];
        forall v | v in oldOut ensures v in out { }
        forall v | v in oldIn ensures v in newIn { }
        MoreBits(count, regs, liveIn, liveOut, i, newIn, out);
        if out != liveOut[i] || newIn != liveIn[i] {
          changed := true;
        }
        forall s: nat | s < count && Flows(g, extra, i, s) ensures liveIn[s] <= out {
          forall v | v in liveIn[s] ensures v in out { }
        }
        liveOut := liveOut[i := out];
        liveIn := liveIn[i := newIn];
      }
    }
    forall b, v | 0 <= b < count && LiveAtStart(g, extra, use, def, b, v) ensures v in liveIn[b] {
      Complete(g, extra, use, def, liveIn, liveOut, b, v);
    }
    forall b, v | 0 <= b < count && LiveAtEnd(g, extra, use, def, b, v) ensures v in liveOut[b] {
      CompleteAtEnd(g, extra, use, def, liveIn, liveOut, b, v);
    }
  }

  lemma NewElement(small: set<int>, large: set<int>) returns (v: int)
    requires small <= large
    ensures small == large || (v in large && v !in small)
  {
    v := 0;
    if forall w :: w in large ==> w in small {
      assert small == large;
    } else {
      v :| v in large && v !in small;
    }
  }

  /** Growing one row of each table sets more bits. */
  lemma MoreBits(count: nat, regs: set<int>, liveIn: seq<set<int>>, liveOut: seq<set<int>>, b: nat, newIn: set<int>,
                 out: set<int>)
    requires b < count == |liveIn| == |liveOut|
    requires Within(liveIn, regs) && Within(liveOut, regs) && newIn <= regs && out <= regs
    requires liveIn[b] <= newIn && liveOut[b] <= out
    ensures AllBits(count, regs) - Bits(liveIn[b := newIn], liveOut[b := out]) <=
      AllBits(count, regs) - Bits(liveIn, liveOut)
    ensures newIn != liveIn[b] || out != liveOut[b] ==>
      AllBits(count, regs) - Bits(liveIn[b := newIn], liveOut[b := out]) < AllBits(count, regs) - Bits(liveIn, liveOut)
  {
    var before, after := Bits(liveIn, liveOut), Bits(liveIn[b := newIn], liveOut[b := out]);
    assert before <= after;
    if newIn != liveIn[b] {
      var v := NewElement(liveIn[b], newIn);
      assert (false, b, v) in after && (false, b, v) !in before && (false, b, v) in AllBits(count, regs);
    } else if out != liveOut[b] {
      var v := NewElement(liveOut[b], out);
      assert (true, b, v) in after && (true, b, v) !in before && (true, b, v) in AllBits(count, regs);
    }
  }

  lemma CompleteAtEnd<V>(g: Graph<V>, extra: seq<set<nat>>, use: seq<set<int>>, def: seq<set<int>>,
                         liveIn: seq<set<int>>, liveOut: seq<set<int>>, b: nat, v: int)
    requires |extra| == |use| == |def| == |liveIn| == |liveOut| == |g.blocks| && b < |g.blocks|
    requires forall c :: 0 <= c < |g.blocks| ==> Stable(g, extra, use, def, liveIn, liveOut, c)
    requires LiveAtEnd(g, extra, use, def, b, v)
    ensures v in liveOut[b]
  {
    var s: nat :| Flows(g, extra, b, s) && LiveAtStart(g, extra, use, def, s, v);
    Complete(g, extra, use, def, liveIn, liveOut, s, v);
    assert Stable(g, extra, use, def, liveIn, liveOut, b);
  }

  least lemma {:induction false} Complete<V>[nat](g: Graph<V>, extra: seq<set<nat>>, use: seq<set<int>>,
                                                  def: seq<set<int>>,
                          liveIn: seq<set<int>>, liveOut: seq<set<int>>, b: nat, v: int)
    requires |extra| == |use| == |def| == |liveIn| == |liveOut| == |g.blocks| && b < |g.blocks|
    requires forall c :: 0 <= c < |g.blocks| ==> Stable(g, extra, use, def, liveIn, liveOut, c)
    requires LiveAtStart(g, extra, use, def, b, v)
    ensures v in liveIn[b]
  {
    assert Stable(g, extra, use, def, liveIn, liveOut, b);
    if v !in use[b] {
      var s: nat :| Flows(g, extra, b, s) && LiveAtStart#[_k - 1](g, extra, use, def, s, v);
      Complete(g, extra, use, def, liveIn, liveOut, s, v);
    }
  }
}
