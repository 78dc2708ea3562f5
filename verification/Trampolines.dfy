/** Removal of blocks that emit no code (src/compiler/Emitter.cpp:133-210). */
module Trampolines {
  import opened Options

  /** What a node is to the test for emitted code; `inRegister` is a constant that was given a register. */
  datatype Kind = Merge | IfTrue | IfFalse | Phi | Constant(inRegister: bool) | Other

  datatype Contents = Contents(control: Option<Kind>, instructions: seq<Kind>)

  predicate Projection(k: Kind) {
    k.Merge? || k.IfTrue? || k.IfFalse?
  }

  predicate HasPhi(c: Contents) {
    exists i :: 0 <= i < |c.instructions| && c.instructions[i].Phi?
  }

  /** blockEmitsCode */
  predicate EmitsCode(c: Contents) {
    c.control.None? || !Projection(c.control.value)
    || exists i :: 0 <= i < |c.instructions| && !Projection(c.instructions[i]) && c.instructions[i] != Constant(false)
  }

  /** The blocks in layout order, the successors of each, and what each holds. */
  datatype Flow = Flow(blocks: seq<nat>, succs: map<nat, seq<nat>>, contents: map<nat, Contents>) {

    /** No edge leaves the list of blocks. */
    ghost predicate Closed() {
      && (forall i, j :: 0 <= i < j < |blocks| ==> blocks[i] != blocks[j])
      && (forall b :: b in blocks ==> b in succs && b in contents)
      && (forall b, k :: b in blocks && 0 <= k < |succs[b]| ==> succs[b][k] in blocks)
    }

    predicate Emits(b: nat) {
      b in contents && EmitsCode(contents[b])
    }

    /** A block that can be bypassed: it emits nothing and goes to one other block, which has no Phi. */
    predicate Bypassed(b: nat) {
      && b in succs && b in contents && |succs[b]| == 1 && succs[b][0] != b && !EmitsCode(contents[b])
      && succs[b][0] in contents && !HasPhi(contents[succs[b][0]])
    }
  }

  // ----- Runs -----

  /** `choices[i]` is the branch outcome at the i-th block visited. */
  ghost predicate IsRun(f: Flow, b: nat, choices: seq<nat>)
    decreases |choices|
  {
    choices == [] || (b in f.succs && choices[0] < |f.succs[b]| && IsRun(f, f.succs[b][choices[0]], choices[1..]))
  }

  /** The code-emitting blocks visited, each with the outcome of its branch. */
  ghost function Trace(f: Flow, b: nat, choices: seq<nat>): seq<(nat, nat)>
    requires IsRun(f, b, choices)
    decreases |choices|
  {
    if choices == [] then [] else
      (if f.Emits(b) then [(b, choices[0])] else []) + Trace(f, f.succs[b][choices[0]], choices[1..])
  }

  ghost function End(f: Flow, b: nat, choices: seq<nat>): nat
    requires IsRun(f, b, choices)
    decreases |choices|
  {
    if choices == [] then b else End(f, f.succs[b][choices[0]], choices[1..])
  }

  /** Every run of `f` from `b` is matched by one of `g` with the same trace, ending at the same block if `g` has it. */
  ghost predicate Matched(f: Flow, g: Flow, b: nat) {
    forall cs :: IsRun(f, b, cs) ==> exists ds :: Matches(f, g, b, cs, ds)
  }

  ghost predicate Matches(f: Flow, g: Flow, b: nat, cs: seq<nat>, ds: seq<nat>) {
    IsRun(f, b, cs) && IsRun(g, b, ds) && Trace(g, b, ds) == Trace(f, b, cs)
    && (End(f, b, cs) in g.blocks ==> End(g, b, ds) == End(f, b, cs))
  }

  /** Every run of `g` from `b` is one of `f`, up to blocks that emit nothing. */
  ghost predicate Included(g: Flow, f: Flow, b: nat) {
    forall ds :: IsRun(g, b, ds) ==> exists cs :: Echoes(g, f, b, ds, cs)
  }

  ghost predicate Echoes(g: Flow, f: Flow, b: nat, ds: seq<nat>, cs: seq<nat>) {
    IsRun(g, b, ds) && IsRun(f, b, cs) && Trace(f, b, cs) == Trace(g, b, ds) && End(f, b, cs) == End(g, b, ds)
  }

  /** The remaining blocks have the same runs as before, and no more. */
  ghost predicate SameRuns(f: Flow, g: Flow) {
    forall b :: b in g.blocks ==> b in f.blocks && Matched(f, g, b) && Included(g, f, b)
  }

  // ----- Following the redirections -----

  /** Follows at most `guard` redirections and wants to be out of them then. */
  function Resolve(redirect: map<nat, nat>, b: nat, guard: nat): (r: Option<nat>)
    ensures r.Some? ==> r.value !in redirect
    ensures b !in redirect ==> r == Some(b)
    decreases guard
  {
    if b !in redirect then Some(b)
    else if guard == 0 then None
    else Resolve(redirect, redirect[b], guard - 1)
  }

  /** The loop of `resolve`: guard + 1 lookups. */
  method ResolveLoop(redirect: map<nat, nat>, b: nat, size: nat) returns (r: Option<nat>)
    ensures r == Resolve(redirect, b, size)
  {
    var cur := b;
    for guard := 0 to size + 1
      invariant guard <= size ==> Resolve(redirect, cur, size - guard) == Resolve(redirect, b, size)
      invariant guard == size + 1 ==> Resolve(redirect, b, size) == None
    {
      if cur !in redirect {
        return Some(cur);
      }
      cur := redirect[cur];
    }
    return None;
  }

  /** Where an edge to `b` leads afterwards. */
  function Target(redirect: map<nat, nat>, b: nat, size: nat): nat {
    match Resolve(redirect, b, size)
    case Some(t) => t
    case None => b
  }

  predicate Removed(redirect: map<nat, nat>, b: nat, size: nat) {
    b in redirect && Resolve(redirect, b, size).Some?
  }

  /** The redirections that one round finds: every bypassed block but the entry. */
  ghost predicate IsRedirect(f: Flow, redirect: map<nat, nat>)
    requires f.blocks != []
  {
    && (forall b :: b in redirect <==> b in f.blocks && b != f.blocks[0] && f.Bypassed(b))
    && (forall b :: b in redirect ==> redirect[b] == f.succs[b][0])
  }

  ghost predicate Rewritten(redirect: map<nat, nat>, before: seq<nat>, after: seq<nat>, size: nat) {
    |after| == |before| && forall k :: 0 <= k < |before| ==> after[k] == Target(redirect, before[k], size)
  }

  /** What one round makes of the graph. */
  ghost predicate Redirected(f: Flow, redirect: map<nat, nat>, g: Flow) {
    var n := |f.blocks|;
    && g.contents == f.contents
    && (forall b :: b in g.blocks <==> b in f.blocks && !Removed(redirect, b, n))
    && (forall b :: b in f.blocks ==> b in f.succs && b in g.succs && Rewritten(redirect, f.succs[b], g.succs[b], n))
  }

  // ----- One round keeps every run -----

  /** The run through the bypassed blocks from `b` to where it resolves. */
  lemma {:induction false} PathToTarget(f: Flow, redirect: map<nat, nat>, b: nat, guard: nat) returns (zeros: seq<nat>)
    requires f.Closed() && f.blocks != [] && IsRedirect(f, redirect) && b in f.blocks
    requires Resolve(redirect, b, guard).Some?
    ensures IsRun(f, b, zeros) && Trace(f, b, zeros) == [] && End(f, b, zeros) == Resolve(redirect, b, guard).value
    ensures Resolve(redirect, b, guard).value in f.blocks
    decreases guard
  {
    if b !in redirect {
      zeros := [];
    } else {
      var rest := PathToTarget(f, redirect, redirect[b], guard - 1);
      zeros := [0] + rest;
      assert zeros[1..] == rest;
    }
  }

  lemma RunUnrolled(f: Flow, b: nat, cs: seq<nat>, c: nat, rest: seq<nat>)
    requires cs == [c] + rest
    ensures IsRun(f, b, cs) <==> b in f.succs && c < |f.succs[b]| && IsRun(f, f.succs[b][c], rest)
    ensures IsRun(f, b, cs) ==> Trace(f, b, cs) == (if f.Emits(b) then [(b, c)] else []) + Trace(f, f.succs[b][c], rest)
    ensures IsRun(f, b, cs) ==> End(f, b, cs) == End(f, f.succs[b][c], rest)
  {
    hide EmitsCode;
    assert cs[1..] == rest;
  }

  lemma {:induction false} RunConcat(f: Flow, b: nat, cs: seq<nat>, ds: seq<nat>)
    requires IsRun(f, b, cs) && IsRun(f, End(f, b, cs), ds)
    ensures IsRun(f, b, cs + ds) && Trace(f, b, cs + ds) == Trace(f, b, cs) + Trace(f, End(f, b, cs), ds)
    ensures End(f, b, cs + ds) == End(f, End(f, b, cs), ds)
    decreases |cs|
  {
    hide EmitsCode, IsRun, Trace, End;
    if cs == [] {
      assert cs + ds == ds;
      RunEmpty(f, b);
    } else {
      var c, rest := cs[0], cs[1..];
      assert cs == [c] + rest && cs + ds == [c] + (rest + ds);
      RunUnrolled(f, b, cs, c, rest);
      RunConcat(f, f.succs[b][c], rest, ds);
      RunUnrolled(f, b, cs + ds, c, rest + ds);
    }
  }

  lemma RunEmpty(f: Flow, b: nat)
    ensures IsRun(f, b, []) && Trace(f, b, []) == [] && End(f, b, []) == b
  {
  }

  lemma SuccessorListed(f: Flow, b: nat, k: nat)
    requires f.Closed() && b in f.blocks && b in f.succs && k < |f.succs[b]|
    ensures f.succs[b][k] in f.blocks
  {
  }

  /** A removed block emits nothing, has one outcome, and resolves as its successor does. */
  lemma RemovedPasses(f: Flow, redirect: map<nat, nat>, b: nat)
    requires f.Closed() && f.blocks != [] && IsRedirect(f, redirect) && Removed(redirect, b, |f.blocks|)
    ensures !f.Emits(b) && b in f.succs && |f.succs[b]| == 1
    ensures Target(redirect, b, |f.blocks|) == Target(redirect, f.succs[b][0], |f.blocks|)
  {
    hide EmitsCode, HasPhi;
    ResolveShorter(redirect, b, |f.blocks|);
  }

  /** A kept block stands for itself and leads to where its successors resolve. */
  lemma KeptLeads(f: Flow, redirect: map<nat, nat>, g: Flow, b: nat, k: nat)
    requires f.Closed() && f.blocks != [] && Redirected(f, redirect, g)
    requires b in f.blocks && !Removed(redirect, b, |f.blocks|) && k < |f.succs[b]|
    ensures Target(redirect, b, |f.blocks|) == b && f.Emits(b) == g.Emits(b)
    ensures b in g.succs && k < |g.succs[b]| && g.succs[b][k] == Target(redirect, f.succs[b][k], |f.blocks|)
  {
    hide EmitsCode, HasPhi;
  }

  /** From the block that stands for `b`, the new graph does what the old one does from `b`. */
  lemma {:induction false} Forward(f: Flow, redirect: map<nat, nat>, g: Flow, b: nat, cs: seq<nat>)
    returns (ds: seq<nat>)
    requires f.Closed() && f.blocks != [] && IsRedirect(f, redirect) && Redirected(f, redirect, g)
    requires b in f.blocks && IsRun(f, b, cs)
    ensures var start := Target(redirect, b, |f.blocks|);
      IsRun(g, start, ds) && Trace(g, start, ds) == Trace(f, b, cs)
      && End(g, start, ds) == Target(redirect, End(f, b, cs), |f.blocks|)
    decreases |cs|
  {
    hide Target, Removed, Redirected, IsRedirect, EmitsCode, HasPhi;
    if cs == [] {
      ds := [];
    } else {
      SuccessorListed(f, b, cs[0]);
      var rest := Forward(f, redirect, g, f.succs[b][cs[0]], cs[1..]);
      if Removed(redirect, b, |f.blocks|) {
        RemovedPasses(f, redirect, b);
        ds := rest;
      } else {
        KeptLeads(f, redirect, g, b, cs[0]);
        ds := [cs[0]] + rest;
        assert ds[1..] == rest;
      }
    }
  }

  lemma {:induction false} ResolveMore(redirect: map<nat, nat>, b: nat, guard: nat, more: nat)
    requires Resolve(redirect, b, guard).Some? && guard <= more
    ensures Resolve(redirect, b, more) == Resolve(redirect, b, guard)
    decreases guard
  {
    if b in redirect {
      ResolveMore(redirect, redirect[b], guard - 1, more - 1);
    }
  }

  lemma ResolveShorter(redirect: map<nat, nat>, b: nat, n: nat)
    requires b in redirect && Resolve(redirect, b, n).Some?
    ensures Resolve(redirect, redirect[b], n) == Resolve(redirect, b, n)
  {
    ResolveMore(redirect, redirect[b], n - 1, n);
  }

  /** What the new graph does from a kept block, the old one does too. */
  lemma {:induction false} Backward(f: Flow, redirect: map<nat, nat>, g: Flow, b: nat, ds: seq<nat>)
    returns (cs: seq<nat>)
    requires f.Closed() && f.blocks != [] && IsRedirect(f, redirect) && Redirected(f, redirect, g)
    requires b in f.blocks && !Removed(redirect, b, |f.blocks|) && IsRun(g, b, ds)
    ensures IsRun(f, b, cs) && Trace(f, b, cs) == Trace(g, b, ds) && End(f, b, cs) == End(g, b, ds)
    decreases |ds|
  {
    hide Target, Removed, Redirected, IsRedirect, EmitsCode, HasPhi;
    if ds == [] {
      cs := [];
    } else {
      SameFanOut(f, redirect, g, b);
      KeptLeads(f, redirect, g, b, ds[0]);
      SuccessorListed(f, b, ds[0]);
      var next := f.succs[b][ds[0]];
      var target := Target(redirect, next, |f.blocks|);
      TargetKept(f, redirect, next);
      var rest := Backward(f, redirect, g, target, ds[1..]);
      var hops := HopsToTarget(f, redirect, next);
      RunConcat(f, next, hops, rest);
      cs := [ds[0]] + (hops + rest);
      assert cs[1..] == hops + rest;
    }
  }

  lemma SameFanOut(f: Flow, redirect: map<nat, nat>, g: Flow, b: nat)
    requires f.Closed() && f.blocks != [] && Redirected(f, redirect, g) && b in f.blocks
    ensures b in g.succs && |g.succs[b]| == |f.succs[b]|
  {
  }

  lemma HopsToTarget(f: Flow, redirect: map<nat, nat>, b: nat) returns (hops: seq<nat>)
    requires f.Closed() && f.blocks != [] && IsRedirect(f, redirect) && b in f.blocks
    ensures IsRun(f, b, hops) && Trace(f, b, hops) == [] && End(f, b, hops) == Target(redirect, b, |f.blocks|)
  {
    if Resolve(redirect, b, |f.blocks|).Some? {
      hops := PathToTarget(f, redirect, b, |f.blocks|);
    } else {
      hops := [];
    }
  }

  lemma TargetKept(f: Flow, redirect: map<nat, nat>, b: nat)
    requires f.Closed() && f.blocks != [] && IsRedirect(f, redirect) && b in f.blocks
    ensures Target(redirect, b, |f.blocks|) in f.blocks
    ensures !Removed(redirect, Target(redirect, b, |f.blocks|), |f.blocks|)
  {
    if Resolve(redirect, b, |f.blocks|).Some? {
      var hops := PathToTarget(f, redirect, b, |f.blocks|);
    }
  }

  lemma RoundKeepsRuns(f: Flow, redirect: map<nat, nat>, g: Flow)
    requires f.Closed() && f.blocks != [] && IsRedirect(f, redirect) && Redirected(f, redirect, g)
    ensures SameRuns(f, g)
  {
    forall b | b in g.blocks ensures b in f.blocks && Matched(f, g, b) && Included(g, f, b) {
      RoundMatched(f, redirect, g, b);
      RoundIncluded(f, redirect, g, b);
    }
  }

  lemma RoundMatched(f: Flow, redirect: map<nat, nat>, g: Flow, b: nat)
    requires f.Closed() && f.blocks != [] && IsRedirect(f, redirect) && Redirected(f, redirect, g) && b in g.blocks
    ensures Matched(f, g, b)
  {
    hide IsRun, Trace, End, IsRedirect, Resolve;
    forall cs | IsRun(f, b, cs) ensures exists ds :: Matches(f, g, b, cs, ds) {
      var ds := Forward(f, redirect, g, b, cs);
      assert Matches(f, g, b, cs, ds);
    }
  }

  lemma RoundIncluded(f: Flow, redirect: map<nat, nat>, g: Flow, b: nat)
    requires f.Closed() && f.blocks != [] && IsRedirect(f, redirect) && Redirected(f, redirect, g) && b in g.blocks
    ensures Included(g, f, b)
  {
    hide IsRun, Trace, End, IsRedirect, Resolve;
    forall ds | IsRun(g, b, ds) ensures exists cs :: Echoes(g, f, b, ds, cs) {
      var cs := Backward(f, redirect, g, b, ds);
      assert Echoes(g, f, b, ds, cs);
    }
  }

  lemma SameRunsTransitive(f: Flow, g: Flow, h: Flow)
    requires SameRuns(f, g) && SameRuns(g, h)
    ensures SameRuns(f, h)
  {
    hide Matched, Included;
    forall b | b in h.blocks ensures b in f.blocks && Matched(f, h, b) && Included(h, f, b) {
      MatchedTransitive(f, g, h, b);
      IncludedTransitive(f, g, h, b);
    }
  }

  lemma MatchedTransitive(f: Flow, g: Flow, h: Flow, b: nat)
    requires Matched(f, g, b) && Matched(g, h, b) && forall c :: c in h.blocks ==> c in g.blocks
    ensures Matched(f, h, b)
  {
    hide IsRun, Trace, End;
    forall cs | IsRun(f, b, cs) ensures exists es :: Matches(f, h, b, cs, es) {
      var ds :| Matches(f, g, b, cs, ds);
      var es :| Matches(g, h, b, ds, es);
      assert Matches(f, h, b, cs, es);
    }
  }

  lemma IncludedTransitive(f: Flow, g: Flow, h: Flow, b: nat)
    requires Included(h, g, b) && Included(g, f, b)
    ensures Included(h, f, b)
  {
    hide IsRun, Trace, End;
    forall es | IsRun(h, b, es) ensures exists cs :: Echoes(h, f, b, es, cs) {
      var ds :| Echoes(h, g, b, es, ds);
      var cs :| Echoes(g, f, b, ds, cs);
      assert Echoes(h, f, b, es, cs);
    }
  }

  lemma SameRunsReflexive(f: Flow)
    ensures SameRuns(f, f)
  {
    hide IsRun, Trace, End;
    forall b | b in f.blocks ensures Matched(f, f, b) && Included(f, f, b) {
      forall cs | IsRun(f, b, cs)
        ensures (exists ds :: Matches(f, f, b, cs, ds)) && exists ds :: Echoes(f, f, b, cs, ds)
      {
        assert Matches(f, f, b, cs, cs) && Echoes(f, f, b, cs, cs);
      }
    }
  }

  // ----- The pass -----

  /** The edges into blocks with a Phi, and their order, stay as they are. */
  ghost predicate PhiEdgesKept(f: Flow, g: Flow) {
    forall b, t :: b in g.blocks && t in f.contents && HasPhi(f.contents[t]) ==> SameEdges(f, g, b, t)
  }

  /** The same outcomes of `b` lead to `t` in both graphs. */
  ghost predicate SameEdges(f: Flow, g: Flow, b: nat, t: nat) {
    b in f.succs && b in g.succs && |f.succs[b]| == |g.succs[b]|
    && forall k :: 0 <= k < |f.succs[b]| ==> (f.succs[b][k] == t <==> g.succs[b][k] == t)
  }

  lemma {:induction false} NeverToPhi(f: Flow, redirect: map<nat, nat>, b: nat, guard: nat)
    requires f.blocks != [] && IsRedirect(f, redirect) && b in redirect && Resolve(redirect, b, guard).Some?
    ensures Resolve(redirect, b, guard).value in f.contents && !HasPhi(f.contents[Resolve(redirect, b, guard).value])
    decreases guard
  {
    hide HasPhi, EmitsCode;
    assert f.Bypassed(b);
    var next := redirect[b];
    if next in redirect {
      NeverToPhi(f, redirect, next, guard - 1);
    } else {
      assert Resolve(redirect, next, guard - 1) == Some(next);
    }
  }

  /** Whoever leads to a block with a Phi stays. */
  ghost predicate PhiSourcesKept(f: Flow, g: Flow) {
    forall b, t :: b in f.blocks && b in f.succs && t in f.succs[b] && t in f.contents && HasPhi(f.contents[t]) ==>
      b in g.blocks
  }

  lemma RoundKeepsPhis(f: Flow, redirect: map<nat, nat>, g: Flow)
    requires f.Closed() && f.blocks != [] && IsRedirect(f, redirect) && Redirected(f, redirect, g)
    ensures PhiEdgesKept(f, g) && PhiSourcesKept(f, g)
  {
    hide EmitsCode, HasPhi, Target, Resolve, Rewritten;
    forall b, t | b in g.blocks && t in f.contents && HasPhi(f.contents[t]) ensures SameEdges(f, g, b, t) {
      RoundSameEdges(f, redirect, g, b, t);
    }
    forall b, t | b in f.blocks && b in f.succs && t in f.succs[b] && t in f.contents && HasPhi(f.contents[t])
      ensures b in g.blocks
    {
      LeadsToPhi(f, redirect, b, t);
    }
  }

  lemma LeadsToPhi(f: Flow, redirect: map<nat, nat>, b: nat, t: nat)
    requires f.blocks != [] && IsRedirect(f, redirect) && b in f.succs && t in f.succs[b] && t in f.contents
    requires HasPhi(f.contents[t])
    ensures b !in redirect
  {
    hide EmitsCode, HasPhi;
    var k :| 0 <= k < |f.succs[b]| && f.succs[b][k] == t;
  }

  lemma RoundSameEdges(f: Flow, redirect: map<nat, nat>, g: Flow, b: nat, t: nat)
    requires f.Closed() && f.blocks != [] && IsRedirect(f, redirect) && Redirected(f, redirect, g)
    requires b in g.blocks && t in f.contents && HasPhi(f.contents[t])
    ensures SameEdges(f, g, b, t)
  {
    hide EmitsCode, HasPhi, Resolve;
    var n := |f.blocks|;
    PhiEmits(f.contents[t]);
    forall k | 0 <= k < |f.succs[b]| ensures f.succs[b][k] == t <==> g.succs[b][k] == t {
      var s := f.succs[b][k];
      if s in redirect && Resolve(redirect, s, n).Some? { NeverToPhi(f, redirect, s, n); }
    }
  }

  lemma PhiEmits(c: Contents)
    requires HasPhi(c)
    ensures EmitsCode(c)
  {
  }

  // ----- Cycles of empty blocks -----

  /** `b` is bypassed again and again without end. */
  ghost predicate Endless(redirect: map<nat, nat>, b: nat) {
    forall n: nat :: Resolve(redirect, b, n) == None
  }

  ghost function Hop(redirect: map<nat, nat>, b: nat, n: nat): nat {
    if n == 0 then b else
      var c := Hop(redirect, b, n - 1);
      if c in redirect then redirect[c] else c
  }

  lemma {:induction false} HopFirst(redirect: map<nat, nat>, b: nat, n: nat)
    requires b in redirect && n > 0
    ensures Hop(redirect, b, n) == Hop(redirect, redirect[b], n - 1)
  {
    if n > 1 {
      HopFirst(redirect, b, n - 1);
    }
  }

  lemma {:induction false} ResolveHops(redirect: map<nat, nat>, b: nat, n: nat)
    ensures Resolve(redirect, b, n) == None <==> forall i: nat :: i <= n ==> Hop(redirect, b, i) in redirect
    decreases n
  {
    assert Hop(redirect, b, 0) == b;
    if b in redirect && n > 0 {
      ResolveHops(redirect, redirect[b], n - 1);
      if Resolve(redirect, b, n) == None {
        forall i: nat | i <= n ensures Hop(redirect, b, i) in redirect {
          if i > 0 { HopFirst(redirect, b, i); }
        }
      } else {
        var i: nat :| i <= n - 1 && Hop(redirect, redirect[b], i) !in redirect;
        HopFirst(redirect, b, i + 1);
      }
    }
  }

  /** More positions than values: two positions hold the same value. */
  lemma {:induction false} Pigeonhole(s: seq<nat>, values: set<nat>) returns (i: nat, j: nat)
    requires |s| > |values| && forall k :: 0 <= k < |s| ==> s[k] in values
    ensures i < j < |s| && s[i] == s[j]
    decreases |s|
  {
    var last := s[|s| - 1];
    if k: nat :| k < |s| - 1 && s[k] == last {
      i, j := k, |s| - 1;
    } else {
      forall k | 0 <= k < |s| - 1 ensures s[k] in values - {last} { assert s[k] in values; }
      i, j := Pigeonhole(s[..|s| - 1], values - {last});
    }
  }

  lemma {:induction false} HopPeriodic(redirect: map<nat, nat>, b: nat, i: nat, j: nat, n: nat)
    requires i < j && Hop(redirect, b, i) == Hop(redirect, b, j)
    requires forall k: nat :: k <= j ==> Hop(redirect, b, k) in redirect
    ensures Hop(redirect, b, n) in redirect
    decreases n
  {
    if n > j {
      HopPeriodic(redirect, b, i, j, n - (j - i));
      HopShift(redirect, b, i, j, n - j);
    }
  }

  lemma {:induction false} HopShift(redirect: map<nat, nat>, b: nat, i: nat, j: nat, d: nat)
    requires Hop(redirect, b, i) == Hop(redirect, b, j)
    ensures Hop(redirect, b, i + d) == Hop(redirect, b, j + d)
  {
    if d > 0 {
      HopShift(redirect, b, i, j, d - 1);
    }
  }

  /** The guard is large enough: giving up means that the redirections go round in a cycle. */
  lemma GivesUpExactlyOnCycles(redirect: map<nat, nat>, b: nat, size: nat)
    requires |redirect.Keys| <= size
    ensures Resolve(redirect, b, size) == None <==> Endless(redirect, b)
  {
    if Resolve(redirect, b, size) == None {
      ResolveHops(redirect, b, size);
      var s := seq(size + 1, i requires 0 <= i => Hop(redirect, b, i));
      forall k | 0 <= k < |s| ensures s[k] in redirect.Keys { assert s[k] == Hop(redirect, b, k); }
      var i, j := Pigeonhole(s, redirect.Keys);
      forall n: nat ensures Resolve(redirect, b, n) == None {
        forall k: nat | k <= n ensures Hop(redirect, b, k) in redirect { HopPeriodic(redirect, b, i, j, k); }
        ResolveHops(redirect, b, n);
      }
    }
  }

  // ----- The pass -----

  function Kept(s: seq<nat>, keep: set<nat>): seq<nat> {
    if s == [] then [] else Kept(s[..|s| - 1], keep) + if s[|s| - 1] in keep then [s[|s| - 1]] else []
  }

  lemma {:induction false} KeptMembers(s: seq<nat>, keep: set<nat>)
    ensures forall b :: b in Kept(s, keep) <==> b in s && b in keep
  {
    if s != [] {
      KeptMembers(s[..|s| - 1], keep);
      assert s == s[..|s| - 1] + [s[|s| - 1]];
    }
  }

  lemma {:induction false} KeptDistinct(s: seq<nat>, keep: set<nat>)
    requires forall i, j :: 0 <= i < j < |s| ==> s[i] != s[j]
    ensures forall i, j :: 0 <= i < j < |Kept(s, keep)| ==> Kept(s, keep)[i] != Kept(s, keep)[j]
  {
    if s != [] {
      KeptDistinct(s[..|s| - 1], keep);
      KeptMembers(s[..|s| - 1], keep);
    }
  }

  lemma {:induction false} KeptTwice(s: seq<nat>, a: set<nat>, b: set<nat>)
    requires forall x :: x in b ==> x in a
    ensures Kept(Kept(s, a), b) == Kept(s, b)
  {
    if s != [] {
      var front, last := Kept(s[..|s| - 1], a), s[|s| - 1];
      KeptTwice(s[..|s| - 1], a, b);
      if last in a {
        assert Kept(s, a)[..|front|] == front;
      } else {
        assert Kept(s, a) == front;
      }
    }
  }

  lemma {:induction false} KeptAll(s: seq<nat>, keep: set<nat>)
    requires forall b :: b in s ==> b in keep
    ensures Kept(s, keep) == s
  {
    if s != [] {
      assert s == s[..|s| - 1] + [s[|s| - 1]];
      KeptAll(s[..|s| - 1], keep);
    }
  }

  lemma {:induction false} KeptFirst(s: seq<nat>, keep: set<nat>)
    requires s != [] && s[0] in keep
    ensures Kept(s, keep) != [] && Kept(s, keep)[0] == s[0]
  {
    if |s| > 1 {
      KeptFirst(s[..|s| - 1], keep);
    }
  }

  lemma {:induction false} KeptShorter(s: seq<nat>, keep: set<nat>)
    ensures |Kept(s, keep)| <= |s| && ((exists b :: b in s && b !in keep) ==> |Kept(s, keep)| < |s|)
  {
    if s != [] {
      KeptShorter(s[..|s| - 1], keep);
      assert s == s[..|s| - 1] + [s[|s| - 1]];
    }
  }

  ghost function Members(s: seq<nat>): set<nat> {
    set b | b in s
  }

  /** What the whole pass guarantees. */
  ghost predicate Simplified(f: Flow, g: Flow) {
    && f.contents == g.contents && SameRuns(f, g) && PhiEdgesKept(f, g) && PhiSourcesKept(f, g)
    && g.blocks == Kept(f.blocks, Members(g.blocks))
  }

  lemma PhisTransitive(f: Flow, g: Flow, h: Flow)
    requires g.contents == f.contents && f.Closed() && g.Closed()
    requires forall b :: b in h.blocks ==> b in g.blocks
    requires PhiEdgesKept(f, g) && PhiEdgesKept(g, h) && PhiSourcesKept(f, g) && PhiSourcesKept(g, h)
    ensures PhiEdgesKept(f, h) && PhiSourcesKept(f, h)
  {
    hide HasPhi;
    forall b, t | b in h.blocks && t in f.contents && HasPhi(f.contents[t]) ensures SameEdges(f, h, b, t) {
      assert SameEdges(f, g, b, t) && SameEdges(g, h, b, t);
    }
    forall b, t | b in f.blocks && b in f.succs && t in f.succs[b] && t in f.contents && HasPhi(f.contents[t])
      ensures b in h.blocks
    {
      assert SameEdges(f, g, b, t);
      var k :| 0 <= k < |f.succs[b]| && f.succs[b][k] == t;
      assert g.succs[b][k] == t;
    }
  }

  lemma SimplifiedTransitive(f: Flow, g: Flow, h: Flow)
    requires f.Closed() && g.Closed() && Simplified(f, g) && Simplified(g, h)
    ensures Simplified(f, h)
  {
    hide SameRuns, PhiEdgesKept, PhiSourcesKept, Kept;
    KeptMembers(g.blocks, Members(h.blocks));
    assert forall b :: b in h.blocks ==> b in g.blocks;
    SameRunsTransitive(f, g, h);
    PhisTransitive(f, g, h);
    KeptTwice(f.blocks, Members(g.blocks), Members(h.blocks));
  }

  lemma SimplifiedReflexive(f: Flow)
    requires f.Closed()
    ensures Simplified(f, f)
  {
    hide HasPhi, Kept;
    SameRunsReflexive(f);
    KeptAll(f.blocks, Members(f.blocks));
  }

  /** Nothing is left to bypass except cycles of empty blocks. */
  ghost predicate OnlyCyclesLeft(f: Flow)
    requires f.blocks != []
  {
    forall redirect, b :: IsRedirect(f, redirect) && b in redirect ==> Endless(redirect, b)
  }

  lemma RoundResult(f: Flow, redirect: map<nat, nat>, g: Flow, keep: set<nat>)
    requires f.Closed() && f.blocks != [] && IsRedirect(f, redirect) && g.contents == f.contents
    requires forall b :: b in keep <==> b in f.blocks && !Removed(redirect, b, |f.blocks|)
    requires g.blocks == Kept(f.blocks, keep)
    requires forall b :: b in f.blocks ==>
      b in f.succs && b in g.succs && Rewritten(redirect, f.succs[b], g.succs[b], |f.blocks|)
    ensures g.Closed() && g.blocks != [] && g.blocks[0] == f.blocks[0] && Simplified(f, g)
    ensures (exists b :: b in f.blocks && Removed(redirect, b, |f.blocks|)) ==> |g.blocks| < |f.blocks|
  {
    hide Kept, Removed, Target, HasPhi, EmitsCode;
    KeptMembers(f.blocks, keep);
    KeptDistinct(f.blocks, keep);
    KeptShorter(f.blocks, keep);
    EntryKept(f, redirect);
    KeptFirst(f.blocks, keep);
    forall b, k | b in g.blocks && 0 <= k < |g.succs[b]| ensures g.succs[b][k] in g.blocks {
      SuccessorListed(f, b, k);
      TargetKept(f, redirect, f.succs[b][k]);
    }
    assert keep == Members(g.blocks);
    RoundKeepsRuns(f, redirect, g);
    RoundKeepsPhis(f, redirect, g);
  }

  lemma EntryKept(f: Flow, redirect: map<nat, nat>)
    requires f.blocks != [] && IsRedirect(f, redirect)
    ensures !Removed(redirect, f.blocks[0], |f.blocks|)
  {
  }

  method RewriteAll(redirect: map<nat, nat>, before: seq<nat>, size: nat) returns (edges: seq<nat>)
    ensures Rewritten(redirect, before, edges, size)
  {
    hide Resolve;
    edges := before;
    for k := 0 to |edges|
      invariant |edges| == |before|
      invariant forall l :: 0 <= l < k ==> edges[l] == Target(redirect, before[l], size)
      invariant forall l :: k <= l < |edges| ==> edges[l] == before[l]
    {
      var resolved := ResolveLoop(redirect, edges[k], size);
      if resolved.Some? { edges := edges[k := resolved.value]; }
    }
  }

  /** The redirections among the blocks between the entry and position `i`. */
  ghost predicate FoundUpTo(f: Flow, redirect: map<nat, nat>, i: nat)
    requires 1 <= i <= |f.blocks|
  {
    && (forall b :: b in redirect <==> b in f.blocks[1..i] && f.Bypassed(b))
    && (forall b :: b in redirect ==> redirect[b] == f.succs[b][0])
  }

  lemma FoundNext(f: Flow, redirect: map<nat, nat>, i: nat)
    requires f.Closed() && 1 <= i < |f.blocks| && FoundUpTo(f, redirect, i)
    ensures var b := f.blocks[i]; FoundUpTo(f, if f.Bypassed(b) then redirect[b := f.succs[b][0]] else redirect, i + 1)
  {
    hide HasPhi, EmitsCode;
    assert f.blocks[1..i + 1] == f.blocks[1..i] + [f.blocks[i]];
  }

  lemma FoundAll(f: Flow, redirect: map<nat, nat>)
    requires f.Closed() && f.blocks != [] && FoundUpTo(f, redirect, |f.blocks|)
    ensures IsRedirect(f, redirect)
  {
    hide HasPhi, EmitsCode;
    assert f.blocks == [f.blocks[0]] + f.blocks[1..];
    assert f.blocks[1..|f.blocks|] == f.blocks[1..];
    assert f.blocks[0] !in f.blocks[1..];
  }

  /** The basic blocks of a function, as the emitter edits them. */
  class BlockGraph {
    var blocks: seq<nat>
    var succs: map<nat, seq<nat>>
    const contents: map<nat, Contents>

    constructor (blocks: seq<nat>, succs: map<nat, seq<nat>>, contents: map<nat, Contents>)
      ensures View() == Flow(blocks, succs, contents)
    {
      this.blocks, this.succs, this.contents := blocks, succs, contents;
    }

    function View(): Flow
      reads this
    {
      Flow(blocks, succs, contents)
    }

    method FindRedirects() returns (redirect: map<nat, nat>)
      requires View().Closed() && blocks != []
      ensures IsRedirect(View(), redirect)
    {
      hide HasPhi, EmitsCode;
      redirect := map[];
      assert FoundUpTo(View(), redirect, 1);
      hide FoundUpTo;
      for i := 1 to |blocks|
        invariant FoundUpTo(View(), redirect, i)
      {
        var bb := blocks[i];
        FoundNext(View(), redirect, i);
        if |succs[bb]| == 1 {
          var target := succs[bb][0];
          if target != bb && !EmitsCode(contents[bb]) && !HasPhi(contents[target]) {
            redirect := redirect[bb := target];
          }
        }
      }
      FoundAll(View(), redirect);
    }

    /** Points every edge at where it resolves. */
    method RewriteEdges(redirect: map<nat, nat>)
      requires View().Closed()
      modifies this`succs
      ensures forall b :: b in blocks ==>
        b in succs && b in old(succs) && Rewritten(redirect, old(succs)[b], succs[b], |blocks|)
    {
      hide HasPhi, EmitsCode, Rewritten;
      for i := 0 to |blocks|
        invariant forall b :: b in blocks ==> b in succs && b in old(succs)
        invariant forall j :: 0 <= j < i ==> Rewritten(redirect, old(succs)[blocks[j]], succs[blocks[j]], |blocks|)
        invariant forall j :: i <= j < |blocks| ==> succs[blocks[j]] == old(succs)[blocks[j]]
      {
        var b := blocks[i];
        var edges := RewriteAll(redirect, succs[b], |blocks|);
        succs := succs[b := edges];
      }
    }

    method RemoveBlocks(redirect: map<nat, nat>) returns (changed: bool, ghost keep: set<nat>)
      modifies this`blocks
      ensures forall b :: b in keep <==> b in old(blocks) && !Removed(redirect, b, |old(blocks)|)
      ensures blocks == Kept(old(blocks), keep)
      ensures changed <==> exists b :: b in old(blocks) && Removed(redirect, b, |old(blocks)|)
    {
      hide Resolve;
      var kept: seq<nat> := [];
      var n := |blocks|;
      changed := false;
      keep := set b | b in blocks && !Removed(redirect, b, n);
      for i := 0 to |blocks|
        invariant blocks == old(blocks) && kept == Kept(blocks[..i], keep)
        invariant changed <==> exists j :: 0 <= j < i && Removed(redirect, blocks[j], n)
      {
        var b := blocks[i];
        assert blocks[..i + 1][..i] == blocks[..i];
        var resolved := ResolveLoop(redirect, b, n);
        if b in redirect && resolved.Some? {
          changed := true;
        } else {
          kept := kept + [b];
        }
      }
      assert blocks[..|blocks|] == blocks;
      blocks := kept;
    }

    /** Bypasses and removes the empty blocks until only cycles of them are left. The runs, the order of the blocks,
        the entry and the edges into blocks with a Phi stay; no edge leads to a removed block. */
    method SimplifyEmptyBlocks()
      requires View().Closed() && blocks != []
      modifies this
      ensures View().Closed() && blocks != [] && blocks[0] == old(blocks[0])
      ensures Simplified(old(View()), View()) && OnlyCyclesLeft(View())
    {
      hide SameRuns, PhiEdgesKept, PhiSourcesKept, Kept, HasPhi, EmitsCode, Simplified, Rewritten, IsRedirect;
      hide OnlyCyclesLeft, Removed;
      SimplifiedReflexive(View());
      var changed := true;
      while changed
        invariant View().Closed() && blocks != [] && blocks[0] == old(blocks[0]) && Simplified(old(View()), View())
        invariant !changed ==> OnlyCyclesLeft(View())
        decreases |blocks|, changed
      {
        ghost var before := View();
        changed := Round();
        SimplifiedTransitive(old(View()), before, View());
      }
    }

    /** One round of the loop. */
    method Round() returns (changed: bool)
      requires View().Closed() && blocks != []
      modifies this
      ensures View().Closed() && blocks != [] && blocks[0] == old(blocks[0]) && Simplified(old(View()), View())
      ensures |blocks| <= |old(blocks)| && (changed ==> |blocks| < |old(blocks)|)
      ensures !changed ==> OnlyCyclesLeft(View())
    {
      hide SameRuns, PhiEdgesKept, PhiSourcesKept, Kept, HasPhi, EmitsCode, Simplified, Rewritten, IsRedirect;
      hide OnlyCyclesLeft, Removed;
      SimplifiedReflexive(View());
      var redirect := FindRedirects();
      if redirect == map[] {
        NothingToBypass(View(), redirect);
        return false;
      }
      ghost var before := View();
      RewriteEdges(redirect);
      ghost var keep;
      changed, keep := RemoveBlocks(redirect);
      assert blocks == Kept(before.blocks, keep);
      RoundResult(before, redirect, View(), keep);
      KeptShorter(before.blocks, keep);
      if !changed {
        NothingRemoved(before, redirect, View(), keep);
      }
    }
  }

  lemma RedirectUnique(f: Flow, r: map<nat, nat>, s: map<nat, nat>)
    requires f.blocks != [] && IsRedirect(f, r) && IsRedirect(f, s)
    ensures r == s
  {
    hide HasPhi, EmitsCode;
    assert r.Keys == s.Keys;
  }

  lemma NothingToBypass(f: Flow, redirect: map<nat, nat>)
    requires f.blocks != [] && IsRedirect(f, redirect) && redirect == map[]
    ensures OnlyCyclesLeft(f)
  {
    forall r | IsRedirect(f, r) ensures r == redirect {
      RedirectUnique(f, r, redirect);
    }
  }

  lemma {:induction false} DistinctSize(s: seq<nat>, values: set<nat>)
    requires forall b :: b in values ==> b in s
    ensures |values| <= |s|
  {
    if s == [] {
      assert values == {};
    } else {
      assert s == s[..|s| - 1] + [s[|s| - 1]];
      DistinctSize(s[..|s| - 1], values - {s[|s| - 1]});
    }
  }

  /** Without a removal no edge moves either. */
  lemma NothingMoves(f: Flow, redirect: map<nat, nat>, g: Flow, b: nat)
    requires f.Closed() && f.blocks != [] && b in f.blocks
    requires forall c :: c in f.blocks ==> !Removed(redirect, c, |f.blocks|)
    requires b in g.succs && Rewritten(redirect, f.succs[b], g.succs[b], |f.blocks|)
    ensures g.succs[b] == f.succs[b]
  {
    hide Resolve;
    forall k | 0 <= k < |f.succs[b]| ensures g.succs[b][k] == f.succs[b][k] { SuccessorListed(f, b, k); }
  }

  lemma SameRedirect(f: Flow, redirect: map<nat, nat>, g: Flow)
    requires f.Closed() && f.blocks != [] && IsRedirect(f, redirect) && g.contents == f.contents && g.blocks == f.blocks
    requires forall b :: b in f.blocks ==> b in g.succs && g.succs[b] == f.succs[b]
    ensures IsRedirect(g, redirect)
  {
    hide HasPhi, EmitsCode;
  }

  /** A round that removes nothing changes nothing, and all it found were cycles. */
  lemma NothingRemoved(f: Flow, redirect: map<nat, nat>, g: Flow, keep: set<nat>)
    requires f.Closed() && f.blocks != [] && IsRedirect(f, redirect) && g.contents == f.contents && g.blocks != []
    requires forall b :: b in f.blocks ==> !Removed(redirect, b, |f.blocks|)
    requires forall b :: b in keep <==> b in f.blocks && !Removed(redirect, b, |f.blocks|)
    requires g.blocks == Kept(f.blocks, keep)
    requires forall b :: b in f.blocks ==>
      b in f.succs && b in g.succs && Rewritten(redirect, f.succs[b], g.succs[b], |f.blocks|)
    ensures OnlyCyclesLeft(g)
  {
    hide HasPhi, EmitsCode, IsRedirect, Kept, Rewritten, Resolve;
    KeptAll(f.blocks, keep);
    forall b | b in f.blocks ensures g.succs[b] == f.succs[b] { NothingMoves(f, redirect, g, b); }
    SameRedirect(f, redirect, g);
    AllListed(f, redirect);
    DistinctSize(f.blocks, redirect.Keys);
    forall b | b in redirect ensures Endless(redirect, b) {
      assert !Removed(redirect, b, |f.blocks|);
      GivesUpExactlyOnCycles(redirect, b, |f.blocks|);
    }
    forall r | IsRedirect(g, r) ensures r == redirect { RedirectUnique(g, r, redirect); }
  }

  lemma AllListed(f: Flow, redirect: map<nat, nat>)
    requires f.blocks != [] && IsRedirect(f, redirect)
    ensures forall b :: b in redirect ==> b in f.blocks
  {
  }
}
