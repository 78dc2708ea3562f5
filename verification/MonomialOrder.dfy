/** Monomials as exponent vectors over the registered variables, and the lexicographic order
    (src/cas/Groebner.cpp:49-148). */
module MonomialOrder {

  /** The exponent of every variable; all monomials of one computation have the same length. */
  type Mono = seq<nat>

  /** operator<: the first variable in which they differ decides. */
  predicate Less(a: Mono, b: Mono)
    requires |a| == |b|
  {
    |a| > 0 && (a[0] < b[0] || (a[0] == b[0] && Less(a[1..], b[1..])))
  }

  function Times(a: Mono, b: Mono): (r: Mono)
    requires |a| == |b|
    ensures |r| == |a| && forall v :: 0 <= v < |a| ==> r[v] == a[v] + b[v]
  {
    seq(|a|, v requires 0 <= v < |a| => a[v] + b[v])
  }

  predicate Divides(a: Mono, b: Mono)
    requires |a| == |b|
  {
    forall v :: 0 <= v < |a| ==> a[v] <= b[v]
  }

  /** The exponents of `b` less those of `a`, none below zero. */
  function Over(b: Mono, a: Mono): (r: Mono)
    requires |a| == |b|
    ensures |r| == |a| && forall v :: 0 <= v < |a| ==> r[v] == if b[v] >= a[v] then b[v] - a[v] else 0
  {
    seq(|a|, v requires 0 <= v < |a| => if b[v] >= a[v] then b[v] - a[v] else 0)
  }

  function Lcm(a: Mono, b: Mono): (r: Mono)
    requires |a| == |b|
    ensures |r| == |a| && forall v :: 0 <= v < |a| ==> r[v] == if a[v] >= b[v] then a[v] else b[v]
  {
    seq(|a|, v requires 0 <= v < |a| => if a[v] >= b[v] then a[v] else b[v])
  }

  function One(n: nat): (r: Mono)
    ensures |r| == n && forall v :: 0 <= v < n ==> r[v] == 0
  {
    seq(n, _ => 0)
  }

  lemma TimesOver(a: Mono, b: Mono)
    requires |a| == |b|
    ensures Divides(a, b) ==> Times(a, Over(b, a)) == b && Times(Over(b, a), a) == b
    ensures Divides(a, Times(a, b)) && Over(Times(a, b), a) == b
    ensures Times(a, b) == Times(b, a)
  {
    if Divides(a, b) { assert Times(a, Over(b, a)) == b; }
    assert Over(Times(a, b), a) == b;
  }

  lemma TimesAssociative(a: Mono, b: Mono, c: Mono)
    requires |a| == |b| == |c|
    ensures Times(Times(a, b), c) == Times(a, Times(b, c))
  {
  }

  lemma TimesOne(a: Mono)
    ensures Times(a, One(|a|)) == a && Times(One(|a|), a) == a && Over(a, One(|a|)) == a && Divides(One(|a|), a)
  {
  }

  lemma LcmDivided(a: Mono, b: Mono)
    requires |a| == |b|
    ensures Divides(a, Lcm(a, b)) && Divides(b, Lcm(a, b))
  {
  }

  lemma DividesTransitive(a: Mono, b: Mono, c: Mono)
    requires |a| == |b| == |c| && Divides(a, b) && Divides(b, c)
    ensures Divides(a, c)
  {
  }

  // ----- A total order compatible with multiplication -----

  lemma {:induction false} LessTrichotomy(a: Mono, b: Mono)
    requires |a| == |b|
    ensures Less(a, b) || a == b || Less(b, a)
    ensures !(Less(a, b) && Less(b, a)) && !Less(a, a)
  {
    if |a| > 0 {
      LessTrichotomy(a[1..], b[1..]);
      if a[0] == b[0] {
        LessTrichotomy(a[1..], a[1..]);
        if a[1..] == b[1..] { assert a == [a[0]] + a[1..] && b == [b[0]] + b[1..]; }
      } else {
        LessTrichotomy(a[1..], a[1..]);
      }
    }
  }

  lemma {:induction false} LessTransitive(a: Mono, b: Mono, c: Mono)
    requires |a| == |b| == |c| && Less(a, b) && Less(b, c)
    ensures Less(a, c)
  {
    if a[0] == b[0] && b[0] == c[0] {
      LessTransitive(a[1..], b[1..], c[1..]);
    }
  }

  lemma {:induction false} LessTimes(a: Mono, b: Mono, m: Mono)
    requires |a| == |b| == |m|
    ensures Less(Times(m, a), Times(m, b)) <==> Less(a, b)
  {
    if |a| > 0 {
      LessTimes(a[1..], b[1..], m[1..]);
      assert Times(m, a)[1..] == Times(m[1..], a[1..]) && Times(m, b)[1..] == Times(m[1..], b[1..]);
    }
  }

  // ----- Well-foundedness, for any number of variables -----

  /** Every descending sequence from `m` ends. */
  least predicate Accessible(m: Mono) {
    forall k: Mono :: |k| == |m| && Less(k, m) ==> Accessible(k)
  }

  /** Stepping down from a monomial of rank `o` reaches a monomial of smaller rank. */
  lemma {:induction false} StepDown(m: Mono, o: ORDINAL, k: Mono) returns (o': ORDINAL)
    requires Accessible#[o](m) && |k| == |m| && Less(k, m)
    ensures o' < o && Accessible#[o'](k)
    decreases o
  {
    if o.IsLimit {
      var p: ORDINAL :| p < o && Accessible#[p](m);
      o' := StepDown(m, p, k);
    } else {
      o' := o - 1;
    }
  }

  lemma {:induction false} AllAccessible(m: Mono)
    ensures Accessible(m)
    decreases |m|, 2
  {
    if m == [] {
      assert forall k: Mono :: |k| == |m| ==> !Less(k, m);
    } else {
      AllAccessible(m[1..]);
      var o: ORDINAL :| Accessible#[o](m[1..]);
      HeadAndTail(m[0], m[1..], o);
      assert [m[0]] + m[1..] == m;
    }
  }

  /** Lexicographic descent: first in the head, then in the rank of the tail. */
  lemma {:induction false} HeadAndTail(head: nat, tail: Mono, o: ORDINAL)
    requires Accessible#[o](tail)
    ensures Accessible([head] + tail)
    decreases |tail| + 1, 1, head, o
  {
    var m := [head] + tail;
    forall k: Mono | |k| == |m| && Less(k, m) ensures Accessible(k) {
      assert m[1..] == tail && k == [k[0]] + k[1..];
      if k[0] < head {
        AllAccessible(k[1..]);
        var p: ORDINAL :| Accessible#[p](k[1..]);
        HeadAndTail(k[0], k[1..], p);
      } else {
        var p := StepDown(tail, o, k[1..]);
        HeadAndTail(head, k[1..], p);
      }
    }
  }
}
