/** The ideal generated by a list of polynomials. */
module PolyIdeal {
  import opened MonomialOrder
  import opened MultiPoly

  /** coeff * x^mono * G[index] */
  datatype Multiple = Multiple(coeff: real, mono: Mono, index: nat)

  ghost predicate ValidMultiples(ms: seq<Multiple>, count: nat, n: nat) {
    forall i :: 0 <= i < |ms| ==> ms[i].index < count && |ms[i].mono| == n
  }

  /** The coefficient at `k` of a sum of multiples of the generators. */
  ghost function SumAt(gens: seq<Poly>, ms: seq<Multiple>, k: Mono): real {
    if ms == [] then 0.0 else
      var t := ms[|ms| - 1];
      SumAt(gens, ms[..|ms| - 1], k) + MultipleAt(gens, t, k)
  }

  ghost function MultipleAt(gens: seq<Poly>, t: Multiple, k: Mono): real {
    if t.index < |gens| then Shift(t.coeff, t.mono, gens[t.index], k) else 0.0
  }

  /** `h` is the coefficient function of an element of the ideal of `gens` over `n` variables. */
  ghost predicate InIdeal(h: Mono -> real, gens: seq<Poly>, n: nat) {
    exists ms: seq<Multiple> :: ValidMultiples(ms, |gens|, n) && Represents(h, gens, ms, n)
  }

  ghost predicate Represents(h: Mono -> real, gens: seq<Poly>, ms: seq<Multiple>, n: nat) {
    forall k: Mono :: |k| == n ==> h(k) == SumAt(gens, ms, k)
  }

  ghost function Of(p: Poly): Mono -> real {
    m => Coeff(p, m)
  }

  // ----- Closure -----

  lemma {:induction false} SumAtConcat(gens: seq<Poly>, xs: seq<Multiple>, ys: seq<Multiple>, k: Mono)
    ensures SumAt(gens, xs + ys, k) == SumAt(gens, xs, k) + SumAt(gens, ys, k)
  {
    if ys == [] {
      assert xs + ys == xs;
    } else {
      assert (xs + ys)[..|xs + ys| - 1] == xs + ys[..|ys| - 1];
      SumAtConcat(gens, xs, ys[..|ys| - 1], k);
    }
  }

  ghost function Multiplied(ms: seq<Multiple>, c: real, m: Mono): (r: seq<Multiple>)
    requires forall i :: 0 <= i < |ms| ==> |ms[i].mono| == |m|
    ensures |r| == |ms|
    ensures forall i :: 0 <= i < |ms| ==> r[i] == Multiple(c * ms[i].coeff, Times(m, ms[i].mono), ms[i].index)
  {
    seq(|ms|, i requires 0 <= i < |ms| => Multiple(c * ms[i].coeff, Times(m, ms[i].mono), ms[i].index))
  }

  lemma OverTwice(k: Mono, m: Mono, l: Mono)
    requires |k| == |m| == |l|
    ensures Divides(Times(m, l), k) <==> Divides(m, k) && Divides(l, Over(k, m))
    ensures Divides(Times(m, l), k) ==> Over(k, Times(m, l)) == Over(Over(k, m), l)
  {
    if Divides(Times(m, l), k) {
      forall v | 0 <= v < |k| ensures m[v] <= k[v] && l[v] <= Over(k, m)[v] { assert Times(m, l)[v] <= k[v]; }
    }
    if Divides(m, k) && Divides(l, Over(k, m)) {
      forall v | 0 <= v < |k| ensures Times(m, l)[v] <= k[v] { assert m[v] <= k[v] && l[v] <= Over(k, m)[v]; }
    }
  }

  lemma ShiftTwice(c: real, m: Mono, d: real, l: Mono, g: Poly, k: Mono)
    requires |k| == |m| == |l|
    ensures Shift(c * d, Times(m, l), g, k) == if Divides(m, k) then c * Shift(d, l, g, Over(k, m)) else 0.0
  {
    OverTwice(k, m, l);
  }

  lemma MultipliedFront(ms: seq<Multiple>, c: real, m: Mono)
    requires ms != [] && forall i :: 0 <= i < |ms| ==> |ms[i].mono| == |m|
    ensures Multiplied(ms, c, m)[..|ms| - 1] == Multiplied(ms[..|ms| - 1], c, m)
  {
    var whole, front := Multiplied(ms, c, m)[..|ms| - 1], Multiplied(ms[..|ms| - 1], c, m);
    forall i | 0 <= i < |ms| - 1 ensures whole[i] == front[i] { assert ms[..|ms| - 1][i] == ms[i]; }
  }

  lemma OneMultiplied(gens: seq<Poly>, t: Multiple, c: real, m: Mono, k: Mono)
    requires |m| == |k| == |t.mono|
    ensures MultipleAt(gens, Multiple(c * t.coeff, Times(m, t.mono), t.index), k) ==
      if Divides(m, k) then c * MultipleAt(gens, t, Over(k, m)) else 0.0
  {
    if t.index < |gens| {
      ShiftTwice(c, m, t.coeff, t.mono, gens[t.index], k);
    }
  }

  lemma {:induction false} SumAtMultiplied(gens: seq<Poly>, ms: seq<Multiple>, c: real, m: Mono, k: Mono)
    requires |m| == |k| && forall i :: 0 <= i < |ms| ==> |ms[i].mono| == |m|
    ensures SumAt(gens, Multiplied(ms, c, m), k) == if Divides(m, k) then c * SumAt(gens, ms, Over(k, m)) else 0.0
  {
    hide Shift, Times, Over, Divides, MultipleAt;
    if ms != [] {
      var front, t := ms[..|ms| - 1], ms[|ms| - 1];
      SumAtMultiplied(gens, front, c, m, k);
      MultipliedFront(ms, c, m);
      var r := Multiplied(ms, c, m);
      assert r[|r| - 1] == Multiple(c * t.coeff, Times(m, t.mono), t.index);
      assert SumAt(gens, r, k) == SumAt(gens, r[..|r| - 1], k) + MultipleAt(gens, r[|r| - 1], k);
      OneMultiplied(gens, t, c, m, k);
      if Divides(m, k) {
        Distribute(c, SumAt(gens, front, Over(k, m)), MultipleAt(gens, t, Over(k, m)));
      }
    }
  }

  /** `c` times `x^m` times `h`. */
  ghost function TimesMono(c: real, m: Mono, h: Mono -> real): Mono -> real {
    k => if |k| == |m| && Divides(m, k) then c * h(Over(k, m)) else 0.0
  }

  lemma IdealTimes(h: Mono -> real, gens: seq<Poly>, n: nat, c: real, m: Mono)
    requires InIdeal(h, gens, n) && |m| == n
    ensures InIdeal(TimesMono(c, m, h), gens, n)
  {
    hide SumAt, Times, Over, Divides;
    var ms: seq<Multiple> :| ValidMultiples(ms, |gens|, n) && Represents(h, gens, ms, n);
    var r := Multiplied(ms, c, m);
    forall k: Mono | |k| == n ensures TimesMono(c, m, h)(k) == SumAt(gens, r, k) {
      SumAtMultiplied(gens, ms, c, m, k);
    }
    assert ValidMultiples(r, |gens|, n) && Represents(TimesMono(c, m, h), gens, r, n);
  }

  lemma IdealAdd(f: Mono -> real, g: Mono -> real, h: Mono -> real, gens: seq<Poly>, n: nat)
    requires InIdeal(f, gens, n) && InIdeal(g, gens, n)
    requires forall k: Mono :: |k| == n ==> h(k) == f(k) + g(k)
    ensures InIdeal(h, gens, n)
  {
    var xs: seq<Multiple> :| ValidMultiples(xs, |gens|, n) && Represents(f, gens, xs, n);
    var ys: seq<Multiple> :| ValidMultiples(ys, |gens|, n) && Represents(g, gens, ys, n);
    forall k: Mono | |k| == n ensures h(k) == SumAt(gens, xs + ys, k) {
      SumAtConcat(gens, xs, ys, k);
    }
    assert ValidMultiples(xs + ys, |gens|, n) && Represents(h, gens, xs + ys, n);
  }

  /** h = c * f */
  lemma IdealScale(f: Mono -> real, h: Mono -> real, gens: seq<Poly>, n: nat, c: real)
    requires InIdeal(f, gens, n)
    requires forall k: Mono :: |k| == n ==> h(k) == c * f(k)
    ensures InIdeal(h, gens, n)
  {
    hide InIdeal;
    IdealTimes(f, gens, n, c, One(n));
    forall k: Mono | |k| == n ensures h(k) == TimesMono(c, One(n), f)(k) {
      TimesOne(k);
    }
    IdealEqual(TimesMono(c, One(n), f), h, gens, n);
  }

  /** h = a * f + b * x^m * g */
  lemma IdealLinear(f: Mono -> real, g: Mono -> real, h: Mono -> real, gens: seq<Poly>, n: nat, a: real, b: real,
                    m: Mono)
    requires InIdeal(f, gens, n) && InIdeal(g, gens, n) && |m| == n
    requires forall k: Mono :: |k| == n ==> h(k) == a * f(k) + TimesMono(b, m, g)(k)
    ensures InIdeal(h, gens, n)
  {
    hide InIdeal, TimesMono;
    var af := (k: Mono) => a * f(k);
    IdealScale(f, af, gens, n, a);
    IdealTimes(g, gens, n, b, m);
    IdealAdd(af, TimesMono(b, m, g), h, gens, n);
  }

  lemma IdealEqual(f: Mono -> real, h: Mono -> real, gens: seq<Poly>, n: nat)
    requires InIdeal(f, gens, n) && forall k: Mono :: |k| == n ==> h(k) == f(k)
    ensures InIdeal(h, gens, n)
  {
    var ms: seq<Multiple> :| ValidMultiples(ms, |gens|, n) && Represents(f, gens, ms, n);
    assert Represents(h, gens, ms, n);
  }

  lemma IdealZero(h: Mono -> real, gens: seq<Poly>, n: nat)
    requires forall k: Mono :: |k| == n ==> h(k) == 0.0
    ensures InIdeal(h, gens, n)
  {
    assert ValidMultiples([], |gens|, n) && Represents(h, gens, [], n);
  }

  lemma GeneratorInIdeal(gens: seq<Poly>, i: nat, n: nat)
    requires i < |gens|
    ensures InIdeal(Of(gens[i]), gens, n)
  {
    var ms := [Multiple(1.0, One(n), i)];
    forall k: Mono | |k| == n ensures Of(gens[i])(k) == SumAt(gens, ms, k) {
      TimesOne(k);
      assert SumAt(gens, ms[..0], k) == 0.0;
    }
    assert ValidMultiples(ms, |gens|, n) && Represents(Of(gens[i]), gens, ms, n);
  }

  // ----- Comparing ideals -----

  /** Every generator of the first list lies in the ideal of the second. */
  ghost predicate Within(gens: seq<Poly>, others: seq<Poly>, n: nat) {
    forall i :: 0 <= i < |gens| ==> InIdeal(Of(gens[i]), others, n)
  }

  ghost predicate SameIdeal(gens: seq<Poly>, others: seq<Poly>, n: nat) {
    Within(gens, others, n) && Within(others, gens, n)
  }

  lemma {:induction false} SumSubstituted(gens: seq<Poly>, ms: seq<Multiple>, others: seq<Poly>, n: nat)
    requires Within(gens, others, n) && ValidMultiples(ms, |gens|, n)
    ensures InIdeal(k => SumAt(gens, ms, k), others, n)
  {
    hide InIdeal, Divides, Over;
    var h := (k: Mono) => SumAt(gens, ms, k);
    if ms == [] {
      IdealZero(h, others, n);
    } else {
      var front, t := ms[..|ms| - 1], ms[|ms| - 1];
      SumSubstituted(gens, front, others, n);
      var f := (k: Mono) => SumAt(gens, front, k);
      assert InIdeal(Of(gens[t.index]), others, n);
      forall k: Mono | |k| == n ensures h(k) == 1.0 * f(k) + TimesMono(t.coeff, t.mono, Of(gens[t.index]))(k) { }
      IdealLinear(f, Of(gens[t.index]), h, others, n, 1.0, t.coeff, t.mono);
    }
  }

  /** An ideal whose generators lie in another one lies in it. */
  lemma IdealWithin(h: Mono -> real, gens: seq<Poly>, others: seq<Poly>, n: nat)
    requires InIdeal(h, gens, n) && Within(gens, others, n)
    ensures InIdeal(h, others, n)
  {
    var ms: seq<Multiple> :| ValidMultiples(ms, |gens|, n) && Represents(h, gens, ms, n);
    SumSubstituted(gens, ms, others, n);
    IdealEqual(k => SumAt(gens, ms, k), h, others, n);
  }

  lemma WithinTransitive(a: seq<Poly>, b: seq<Poly>, c: seq<Poly>, n: nat)
    requires Within(a, b, n) && Within(b, c, n)
    ensures Within(a, c, n)
  {
    forall i | 0 <= i < |a| ensures InIdeal(Of(a[i]), c, n) {
      IdealWithin(Of(a[i]), b, c, n);
    }
  }

  /** Adding an element of the ideal to the generators changes nothing. */
  lemma AddMember(gens: seq<Poly>, r: Poly, n: nat)
    requires InIdeal(Of(r), gens, n)
    ensures SameIdeal(gens + [r], gens, n)
  {
    forall i | 0 <= i < |gens + [r]| ensures InIdeal(Of((gens + [r])[i]), gens, n) {
      if i < |gens| { GeneratorInIdeal(gens, i, n); }
    }
    forall i | 0 <= i < |gens| ensures InIdeal(Of(gens[i]), gens + [r], n) {
      GeneratorInIdeal(gens + [r], i, n);
      assert (gens + [r])[i] == gens[i];
    }
  }
}
