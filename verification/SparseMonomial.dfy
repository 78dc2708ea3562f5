/** The fixed-size representation of monomials and its merge loops (src/cas/Groebner.cpp:39-148,
 * src/cas/Groebner.h:15-33). */
module SparseMonomial {
  import opened MonomialOrder

  datatype Power = Power(id: nat, exp: nat)

  /** A variable with its exponent, by increasing variable. */
  type Sparse = seq<Power>

  const MAX_VARS := 8

  datatype Result<T> = Ok(value: T) | MaxVariablesExceeded

  ghost predicate Ordered(m: Sparse) {
    (forall i :: 0 <= i < |m| ==> m[i].exp > 0) && (forall i, j :: 0 <= i < j < |m| ==> m[i].id < m[j].id)
  }

  /** Increasing variables below `n`, positive exponents, and room for all of them. */
  ghost predicate WellFormed(m: Sparse, n: nat) {
    Ordered(m) && |m| <= MAX_VARS && forall i :: 0 <= i < |m| ==> m[i].id < n
  }

  ghost function Exp(m: Sparse, v: nat): nat {
    if m == [] then 0 else if m[|m| - 1].id == v then m[|m| - 1].exp else Exp(m[..|m| - 1], v)
  }

  /** The exponent vector that a sparse monomial stands for. */
  ghost function Dense(m: Sparse, n: nat): (r: Mono)
    ensures |r| == n && forall v :: 0 <= v < n ==> r[v] == Exp(m, v)
  {
    seq(n, v requires 0 <= v < n => Exp(m, v))
  }

  ghost function Ids(m: Sparse): set<nat> {
    set i | 0 <= i < |m| :: m[i].id
  }

  lemma ExpAppend(m: Sparse, t: Power, v: nat)
    ensures Exp(m + [t], v) == if t.id == v then t.exp else Exp(m, v)
  {
    assert (m + [t])[..|m|] == m;
  }

  lemma ExpNext(m: Sparse, i: nat, v: nat)
    requires i < |m|
    ensures Exp(m[..i + 1], v) == if m[i].id == v then m[i].exp else Exp(m[..i], v)
  {
    assert m[..i + 1] == m[..i] + [m[i]];
    ExpAppend(m[..i], m[i], v);
  }

  lemma {:induction false} ExpAbsent(m: Sparse, v: nat)
    requires forall i :: 0 <= i < |m| ==> m[i].id != v
    ensures Exp(m, v) == 0
  {
    if m != [] {
      ExpAbsent(m[..|m| - 1], v);
    }
  }

  lemma {:induction false} ExpAt(m: Sparse, i: nat)
    requires Ordered(m) && i < |m|
    ensures Exp(m, m[i].id) == m[i].exp
  {
    if i < |m| - 1 {
      ExpAt(m[..|m| - 1], i);
    }
  }

  /** Nothing before position `i` mentions a variable from its own on. */
  lemma ExpBefore(m: Sparse, i: nat, v: nat)
    requires Ordered(m) && i <= |m| && (i < |m| ==> v >= m[i].id)
    requires i == |m| ==> forall k :: 0 <= k < |m| ==> m[k].id < v
    ensures Exp(m[..i], v) == 0
  {
    ExpAbsent(m[..i], v);
  }

  lemma {:induction false} IdsSize(m: Sparse)
    requires Ordered(m)
    ensures |Ids(m)| == |m|
  {
    if m != [] {
      var front := m[..|m| - 1];
      IdsSize(front);
      assert Ids(m) == Ids(front) + {m[|m| - 1].id};
    }
  }

  // ----- Building a result by merging -----

  /** The three ways in which the merge loops combine the exponents of one variable. */
  datatype Combine = Sum | Excess | Maximum {
    function Of(x: nat, y: nat): nat {
      match this
      case Sum => x + y
      case Excess => if x > y then x - y else 0
      case Maximum => if x >= y then x else y
    }
  }

  /** After `i` powers of `a` and `j` of `b`: the result combines them and lies below what is to come. */
  ghost predicate Merged(op: Combine, a: Sparse, b: Sparse, i: nat, j: nat, res: Sparse)
    requires i <= |a| && j <= |b|
  {
    && Ordered(res)
    && (forall v :: Exp(res, v) == op.Of(Exp(a[..i], v), Exp(b[..j], v)))
    && (forall k :: 0 <= k < |res| && i < |a| ==> res[k].id < a[i].id)
    && (forall k :: 0 <= k < |res| && j < |b| ==> res[k].id < b[j].id)
    && (forall k :: 0 <= k < i && j < |b| ==> a[k].id < b[j].id)
    && (forall k :: 0 <= k < j && i < |a| ==> b[k].id < a[i].id)
  }

  /** One turn of a merge loop: the smaller variable, or the common one, is moved past. */
  lemma MergeStep(op: Combine, a: Sparse, b: Sparse, i: nat, j: nat, i': nat, j': nat, res: Sparse, id: nat, exp: nat,
                  res': Sparse)
    requires Ordered(a) && Ordered(b) && i <= i' <= |a| && j <= j' <= |b| && i' <= i + 1 && j' <= j + 1
    requires i' + j' > i + j
    requires Merged(op, a, b, i, j, res)
    requires i' > i ==> a[i].id == id
    requires j' > j ==> b[j].id == id
    requires i' == i && i < |a| ==> id < a[i].id
    requires j' == j && j < |b| ==> id < b[j].id
    requires exp == op.Of(if i' > i then a[i].exp else 0, if j' > j then b[j].exp else 0)
    requires res' == if exp > 0 then res + [Power(id, exp)] else res
    ensures Merged(op, a, b, i', j', res')
  {
    hide Exp;
    if i' > i {
      ExpBefore(a, i, id);
    } else if i < |a| {
      ExpAbsent(a[..i], id);
    } else {
      MergedBelow(op, a, b, i, j, res, id);
    }
    if j' > j {
      ExpBefore(b, j, id);
    } else if j < |b| {
      ExpAbsent(b[..j], id);
    } else {
      MergedBelow(op, a, b, i, j, res, id);
    }
    forall v ensures Exp(res', v) == op.Of(Exp(a[..i'], v), Exp(b[..j'], v)) {
      if i' > i { ExpNext(a, i, v); }
      if j' > j { ExpNext(b, j, v); }
      ExpAppend(res, Power(id, exp), v);
    }
  }

  lemma MergedBelow(op: Combine, a: Sparse, b: Sparse, i: nat, j: nat, res: Sparse, id: nat)
    requires Ordered(a) && Ordered(b) && i <= |a| && j <= |b| && Merged(op, a, b, i, j, res)
    requires (i < |a| && a[i].id == id) || (j < |b| && b[j].id == id)
    ensures i == |a| ==> Exp(a[..i], id) == 0
    ensures j == |b| ==> Exp(b[..j], id) == 0
  {
    hide Exp;
    if i == |a| { ExpAbsent(a[..i], id); }
    if j == |b| { ExpAbsent(b[..j], id); }
  }

  lemma MergeEnd(op: Combine, a: Sparse, b: Sparse, res: Sparse, n: nat)
    requires Merged(op, a, b, |a|, |b|, res)
    ensures Ordered(res) && forall v :: Exp(res, v) == op.Of(Exp(a, v), Exp(b, v))
  {
    assert a[..|a|] == a && b[..|b|] == b;
  }

  // ----- multiply, lcm, divide -----

  /** The variables used so far are those of the two parts taken. */
  ghost predicate Uses(a: Sparse, b: Sparse, i: nat, j: nat, res: Sparse)
    requires i <= |a| && j <= |b|
  {
    Ids(res) == Ids(a[..i]) + Ids(b[..j])
  }

  lemma UsesStep(a: Sparse, b: Sparse, i: nat, j: nat, i': nat, j': nat, res: Sparse, id: nat, exp: nat)
    requires i <= i' <= |a| && j <= j' <= |b| && i' <= i + 1 && j' <= j + 1 && i' + j' > i + j && Uses(a, b, i, j, res)
    requires (i' > i ==> a[i].id == id) && (j' > j ==> b[j].id == id)
    ensures Uses(a, b, i', j', res + [Power(id, exp)])
  {
    IdsAppend(res, Power(id, exp));
    if i' > i { IdsAppend(a[..i], a[i]); assert a[..i'] == a[..i] + [a[i]]; }
    if j' > j { IdsAppend(b[..j], b[j]); assert b[..j'] == b[..j] + [b[j]]; }
  }

  lemma IdsAppend(m: Sparse, t: Power)
    ensures Ids(m + [t]) == Ids(m) + {t.id}
  {
    var both := m + [t];
    forall v | v in Ids(m) + {t.id} ensures v in Ids(both) {
      if v == t.id {
        assert both[|m|].id == v;
      } else {
        var i :| 0 <= i < |m| && m[i].id == v;
        assert both[i].id == v;
      }
    }
  }

  /** With eight variables in the result and another one to come, the two monomials use more than eight. */
  lemma TooMany(op: Combine, a: Sparse, b: Sparse, i: nat, j: nat, res: Sparse)
    requires i <= |a| && j <= |b| && (i < |a| || j < |b|) && |res| >= MAX_VARS
    requires Merged(op, a, b, i, j, res) && Uses(a, b, i, j, res)
    ensures |Ids(a) + Ids(b)| > MAX_VARS
  {
    hide Exp;
    IdsSize(res);
    var next := if i < |a| then a[i].id else b[j].id;
    assert next !in Ids(res);
    assert Ids(res) + {next} <= Ids(a) + Ids(b) by {
      forall v | v in Ids(res) + {next} ensures v in Ids(a) + Ids(b) { }
    }
    SubsetSize(Ids(res) + {next}, Ids(a) + Ids(b));
  }

  lemma {:induction false} SubsetSize(s: set<nat>, t: set<nat>)
    requires forall v :: v in s ==> v in t
    ensures |s| <= |t|
  {
    if v :| v in s {
      SubsetSize(s - {v}, t - {v});
    } else {
      assert s == {};
    }
  }

  /** All variables fit exactly when the union of the two has at most eight. */
  lemma AllFit(a: Sparse, b: Sparse, res: Sparse)
    requires Uses(a, b, |a|, |b|, res) && Ordered(res)
    ensures |res| == |Ids(a) + Ids(b)|
  {
    assert a[..|a|] == a && b[..|b|] == b;
    IdsSize(res);
  }

  /** Monomial::multiply for `Sum` and Monomial::lcm for `Maximum`: one loop shape, two ways to combine. */
  method Merge(op: Combine, a: Sparse, b: Sparse, ghost n: nat) returns (r: Result<Sparse>)
    requires WellFormed(a, n) && WellFormed(b, n) && op != Excess
    ensures r.MaxVariablesExceeded? <==> |Ids(a) + Ids(b)| > MAX_VARS
    ensures r.Ok? ==> WellFormed(r.value, n) && forall v: nat :: v < n ==>
      Dense(r.value, n)[v] == op.Of(Dense(a, n)[v], Dense(b, n)[v])
  {
    hide Exp, Merged, Uses;
    var res: Sparse := [];
    var i, j := 0, 0;
    MergeStart(op, a, b);
    while i < |a| && j < |b|
      invariant 0 <= i <= |a| && 0 <= j <= |b| && |res| <= MAX_VARS && forall k :: 0 <= k < |res| ==> res[k].id < n
      invariant Merged(op, a, b, i, j, res) && Uses(a, b, i, j, res)
    {
      if |res| >= MAX_VARS {
        TooMany(op, a, b, i, j, res);
        return MaxVariablesExceeded;
      }
      if a[i].id < b[j].id {
        MergeStep(op, a, b, i, j, i + 1, j, res, a[i].id, a[i].exp, res + [a[i]]);
        UsesStep(a, b, i, j, i + 1, j, res, a[i].id, a[i].exp);
        res := res + [a[i]];
        i := i + 1;
      } else if a[i].id > b[j].id {
        MergeStep(op, a, b, i, j, i, j + 1, res, b[j].id, b[j].exp, res + [b[j]]);
        UsesStep(a, b, i, j, i, j + 1, res, b[j].id, b[j].exp);
        res := res + [b[j]];
        j := j + 1;
      } else {
        var both := op.Of(a[i].exp, b[j].exp);
        MergeStep(op, a, b, i, j, i + 1, j + 1, res, a[i].id, both, res + [Power(a[i].id, both)]);
        UsesStep(a, b, i, j, i + 1, j + 1, res, a[i].id, both);
        res := res + [Power(a[i].id, both)];
        i, j := i + 1, j + 1;
      }
    }
    while i < |a|
      invariant 0 <= i <= |a| && 0 <= j <= |b| && |res| <= MAX_VARS && forall k :: 0 <= k < |res| ==> res[k].id < n
      invariant (i == |a| || j == |b|) && Merged(op, a, b, i, j, res) && Uses(a, b, i, j, res)
    {
      if |res| >= MAX_VARS {
        TooMany(op, a, b, i, j, res);
        return MaxVariablesExceeded;
      }
      MergeStep(op, a, b, i, j, i + 1, j, res, a[i].id, a[i].exp, res + [a[i]]);
      UsesStep(a, b, i, j, i + 1, j, res, a[i].id, a[i].exp);
      res := res + [a[i]];
      i := i + 1;
    }
    while j < |b|
      invariant i == |a| && 0 <= j <= |b| && |res| <= MAX_VARS && forall k :: 0 <= k < |res| ==> res[k].id < n
      invariant Merged(op, a, b, i, j, res) && Uses(a, b, i, j, res)
    {
      if |res| >= MAX_VARS {
        TooMany(op, a, b, i, j, res);
        return MaxVariablesExceeded;
      }
      MergeStep(op, a, b, i, j, i, j + 1, res, b[j].id, b[j].exp, res + [b[j]]);
      UsesStep(a, b, i, j, i, j + 1, res, b[j].id, b[j].exp);
      res := res + [b[j]];
      j := j + 1;
    }
    MergeEnd(op, a, b, res, n);
    AllFit(a, b, res);
    return Ok(res);
  }

  lemma MergeStart(op: Combine, a: Sparse, b: Sparse)
    ensures Merged(op, a, b, 0, 0, []) && Uses(a, b, 0, 0, [])
  {
  }

  method Multiply(a: Sparse, b: Sparse, ghost n: nat) returns (r: Result<Sparse>)
    requires WellFormed(a, n) && WellFormed(b, n)
    ensures r.MaxVariablesExceeded? <==> |Ids(a) + Ids(b)| > MAX_VARS
    ensures r.Ok? ==> WellFormed(r.value, n) && Dense(r.value, n) == Times(Dense(a, n), Dense(b, n))
  {
    r := Merge(Sum, a, b, n);
    if r.Ok? {
      assert Dense(r.value, n) == Times(Dense(a, n), Dense(b, n));
    }
  }

  method LeastCommonMultiple(a: Sparse, b: Sparse, ghost n: nat) returns (r: Result<Sparse>)
    requires WellFormed(a, n) && WellFormed(b, n)
    ensures r.MaxVariablesExceeded? <==> |Ids(a) + Ids(b)| > MAX_VARS
    ensures r.Ok? ==> WellFormed(r.value, n) && Dense(r.value, n) == Lcm(Dense(a, n), Dense(b, n))
  {
    r := Merge(Maximum, a, b, n);
    if r.Ok? {
      assert Dense(r.value, n) == Lcm(Dense(a, n), Dense(b, n));
    }
  }

  /** Monomial::divide; its capacity check never fires. */
  method Divide(a: Sparse, b: Sparse, ghost n: nat) returns (r: Result<Sparse>)
    requires WellFormed(a, n) && WellFormed(b, n)
    ensures r.Ok? && WellFormed(r.value, n) && Dense(r.value, n) == Over(Dense(a, n), Dense(b, n))
  {
    hide Exp, Merged, Uses;
    var res: Sparse := [];
    var i, j := 0, 0;
    MergeStart(Excess, a, b);
    while i < |a| && j < |b|
      invariant 0 <= i <= |a| && 0 <= j <= |b| && |res| <= i && forall k :: 0 <= k < |res| ==> res[k].id < n
      invariant Merged(Excess, a, b, i, j, res)
    {
      if |res| >= MAX_VARS {
        return MaxVariablesExceeded;
      }
      if a[i].id < b[j].id {
        MergeStep(Excess, a, b, i, j, i + 1, j, res, a[i].id, a[i].exp, res + [a[i]]);
        res := res + [a[i]];
        i := i + 1;
      } else if a[i].id > b[j].id {
        MergeStep(Excess, a, b, i, j, i, j + 1, res, b[j].id, 0, res);
        j := j + 1;
      } else {
        var diff: int := a[i].exp as int - b[j].exp as int;
        ghost var before := res;
        if diff > 0 {
          res := res + [Power(a[i].id, diff)];
        }
        MergeStep(Excess, a, b, i, j, i + 1, j + 1, before, a[i].id, if diff > 0 then diff else 0, res);
        i, j := i + 1, j + 1;
      }
    }
    while i < |a|
      invariant 0 <= i <= |a| && 0 <= j <= |b| && |res| <= i && forall k :: 0 <= k < |res| ==> res[k].id < n
      invariant (i == |a| || j == |b|) && Merged(Excess, a, b, i, j, res)
    {
      if |res| >= MAX_VARS {
        return MaxVariablesExceeded;
      }
      MergeStep(Excess, a, b, i, j, i + 1, j, res, a[i].id, a[i].exp, res + [a[i]]);
      res := res + [a[i]];
      i := i + 1;
    }
    SkipRest(a, b, j, res);
    MergeEnd(Excess, a, b, res, n);
    assert Dense(res, n) == Over(Dense(a, n), Dense(b, n));
    return Ok(res);
  }

  lemma {:induction false} SkipRest(a: Sparse, b: Sparse, j: nat, res: Sparse)
    requires Ordered(a) && Ordered(b) && j <= |b| && Merged(Excess, a, b, |a|, j, res)
    ensures Merged(Excess, a, b, |a|, |b|, res)
    decreases |b| - j
  {
    hide Exp, Merged;
    if j < |b| {
      MergeStep(Excess, a, b, |a|, j, |a|, j + 1, res, b[j].id, 0, res);
      SkipRest(a, b, j + 1, res);
    }
  }

  // ----- divides, operator< -----

  /** Exponents agree on (or, for `divides`, are covered in) all variables that both loops are past. */
  lemma ExpFrom(m: Sparse, i: nat, v: nat)
    requires Ordered(m) && i <= |m| && (i < |m| ==> v < m[i].id)
    ensures Exp(m, v) == Exp(m[..i], v)
    decreases |m| - i
  {
    if i < |m| {
      ExpFrom(m, i + 1, v);
      ExpNext(m, i, v);
    } else {
      assert m[..i] == m;
    }
  }

  lemma {:induction false} FirstDifference(a: Mono, b: Mono, v: nat)
    requires |a| == |b| && v < |a| && a[v] < b[v] && forall u :: 0 <= u < v ==> a[u] == b[u]
    ensures Less(a, b)
  {
    if v > 0 {
      assert a[1..][v - 1] == a[v] && b[1..][v - 1] == b[v];
      FirstDifference(a[1..], b[1..], v - 1);
    }
  }

  /** Both monomials give the same exponent to every variable below `v`. */
  ghost predicate SameBelow(a: Sparse, b: Sparse, v: nat) {
    forall u: nat :: u < v ==> Exp(a, u) == Exp(b, u)
  }

  lemma DecidedAt(a: Sparse, b: Sparse, n: nat, v: nat)
    requires v < n && SameBelow(a, b, v) && Exp(a, v) < Exp(b, v)
    ensures Less(Dense(a, n), Dense(b, n)) && !Less(Dense(b, n), Dense(a, n))
  {
    hide Exp, Less;
    FirstDifference(Dense(a, n), Dense(b, n), v);
    LessTrichotomy(Dense(a, n), Dense(b, n));
  }

  lemma SameDense(a: Sparse, b: Sparse, n: nat)
    requires SameBelow(a, b, n)
    ensures Dense(a, n) == Dense(b, n) && !Less(Dense(a, n), Dense(b, n))
  {
    hide Exp, Less;
    assert Dense(a, n) == Dense(b, n);
    LessTrichotomy(Dense(a, n), Dense(b, n));
  }

  /** The first `i` powers are the same, so all variables before the next power of either are. */
  lemma SamePrefix(a: Sparse, b: Sparse, i: nat, v: nat)
    requires Ordered(a) && Ordered(b) && i <= |a| && i <= |b| && a[..i] == b[..i]
    requires (i < |a| ==> v <= a[i].id) && (i < |b| ==> v <= b[i].id)
    ensures SameBelow(a, b, v)
  {
    hide Exp;
    forall u: nat | u < v ensures Exp(a, u) == Exp(b, u) {
      ExpFrom(a, i, u);
      ExpFrom(b, i, u);
    }
  }

  lemma NotBefore(m: Sparse, i: nat, v: nat)
    requires Ordered(m) && i <= |m| && (i < |m| ==> v < m[i].id) && forall k :: 0 <= k < i ==> m[k].id < v
    ensures Exp(m, v) == 0
  {
    hide Exp;
    ExpFrom(m, i, v);
    ExpAbsent(m[..i], v);
  }

  method LessThan(a: Sparse, b: Sparse, ghost n: nat) returns (r: bool)
    requires WellFormed(a, n) && WellFormed(b, n)
    ensures r <==> Less(Dense(a, n), Dense(b, n))
  {
    hide Exp, Less;
    var i, j := 0, 0;
    while i < |a| && j < |b|
      invariant 0 <= i <= |a| && 0 <= j <= |b| && i == j && a[..i] == b[..j]
    {
      if a[i].id < b[j].id {
        SamePrefix(a, b, i, a[i].id);
        ExpAt(a, i);
        assert forall k :: 0 <= k < i ==> b[k].id < a[i].id by {
          forall k | 0 <= k < i ensures b[k].id < a[i].id { assert a[..i][k] == b[..i][k]; }
        }
        NotBefore(b, j, a[i].id);
        DecidedAt(b, a, n, a[i].id);
        return false;
      }
      if a[i].id > b[j].id {
        SamePrefix(a, b, i, b[j].id);
        ExpAt(b, j);
        assert forall k :: 0 <= k < i ==> a[k].id < b[j].id by {
          forall k | 0 <= k < i ensures a[k].id < b[j].id { assert a[..i][k] == b[..i][k]; }
        }
        NotBefore(a, i, b[j].id);
        DecidedAt(a, b, n, b[j].id);
        return true;
      }
      if a[i].exp != b[j].exp {
        SamePrefix(a, b, i, a[i].id);
        ExpAt(a, i);
        ExpAt(b, j);
        if a[i].exp < b[j].exp { DecidedAt(a, b, n, a[i].id); } else { DecidedAt(b, a, n, a[i].id); }
        return a[i].exp < b[j].exp;
      }
      i, j := i + 1, j + 1;
    }
    if i == |a| && j < |b| {
      SamePrefix(a, b, i, b[j].id);
      ExpAt(b, j);
      forall k | 0 <= k < i ensures a[k].id < b[j].id { assert a[..i][k] == b[..i][k]; }
      NotBefore(a, i, b[j].id);
      DecidedAt(a, b, n, b[j].id);
    } else if i < |a| {
      SamePrefix(a, b, i, a[i].id);
      ExpAt(a, i);
      forall k | 0 <= k < i ensures b[k].id < a[i].id { assert a[..i][k] == b[..i][k]; }
      NotBefore(b, j, a[i].id);
      DecidedAt(b, a, n, a[i].id);
    } else {
      SamePrefix(a, b, i, n);
      SameDense(a, b, n);
    }
    return i == |a| && j < |b|;
  }

  method DividesInto(a: Sparse, b: Sparse, ghost n: nat) returns (r: bool)
    requires WellFormed(a, n) && WellFormed(b, n)
    ensures r <==> Divides(Dense(a, n), Dense(b, n))
  {
    hide Exp;
    var i, j := 0, 0;
    while i < |a| && j < |b|
      invariant 0 <= i <= |a| && 0 <= j <= |b|
      invariant forall k :: 0 <= k < i ==> a[k].exp <= Exp(b, a[k].id)
      invariant forall k :: 0 <= k < j && i < |a| ==> b[k].id < a[i].id
    {
      if a[i].id < b[j].id {
        ExpAt(a, i);
        NotBefore(b, j, a[i].id);
        assert !(Dense(a, n)[a[i].id] <= Dense(b, n)[a[i].id]);
        return false;
      }
      if a[i].id > b[j].id {
        j := j + 1;
      } else {
        ExpAt(a, i);
        ExpAt(b, j);
        if a[i].exp > b[j].exp {
          assert !(Dense(a, n)[a[i].id] <= Dense(b, n)[a[i].id]);
          return false;
        }
        i, j := i + 1, j + 1;
      }
    }
    if i < |a| {
      ExpAt(a, i);
      NotBefore(b, j, a[i].id);
      assert !(Dense(a, n)[a[i].id] <= Dense(b, n)[a[i].id]);
    } else {
      forall v | 0 <= v < n ensures Dense(a, n)[v] <= Dense(b, n)[v] {
        if k :| 0 <= k < |a| && a[k].id == v {
          ExpAt(a, k);
        } else {
          ExpAbsent(a, v);
        }
      }
    }
    return i == |a|;
  }
}
