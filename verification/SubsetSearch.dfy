/** The subsets that the recombination goes through: bit masks in descending lexicographic order
    (src/cas/Factorization.cpp:1164-1170, 1219). */
module SubsetSearch {
  import opened Options
  import opened MonomialOrder

  /** One entry per factor, 1 for those taken. */
  type Mask = seq<nat>

  ghost predicate IsMask(m: Mask) {
    forall i :: 0 <= i < |m| ==> m[i] <= 1
  }

  function Count(m: Mask): nat {
    if m == [] then 0 else m[0] + Count(m[1..])
  }

  /** `ones` ones, then `zeros` zeros: the greatest arrangement. */
  function First(ones: nat, zeros: nat): (m: Mask)
    ensures |m| == ones + zeros
  {
    seq(ones, _ => 1) + seq(zeros, _ => 0)
  }

  lemma FirstStep(ones: nat, zeros: nat)
    ensures ones > 0 ==> First(ones, zeros)[0] == 1 && First(ones, zeros)[1..] == First(ones - 1, zeros)
    ensures ones == 0 && zeros > 0 ==> First(ones, zeros)[0] == 0 && First(ones, zeros)[1..] == First(0, zeros - 1)
  {
  }

  lemma {:induction false} FirstCount(ones: nat, zeros: nat)
    ensures Count(First(ones, zeros)) == ones && IsMask(First(ones, zeros))
    decreases ones + zeros
  {
    FirstStep(ones, zeros);
    if ones > 0 {
      FirstCount(ones - 1, zeros);
    } else if zeros > 0 {
      FirstCount(0, zeros - 1);
    }
  }

  lemma {:induction false} CountBound(m: Mask)
    requires IsMask(m)
    ensures Count(m) <= |m|
  {
    if m != [] { CountBound(m[1..]); }
  }

  /** Every arrangement comes at or after the first one. */
  lemma {:induction false} FirstIsGreatest(m: Mask)
    requires IsMask(m)
    ensures Count(m) <= |m| && !Less(First(Count(m), |m| - Count(m)), m)
  {
    CountBound(m);
    if m != [] {
      var c := Count(m);
      CountBound(m[1..]);
      FirstIsGreatest(m[1..]);
      FirstStep(c, |m| - c);
      if m[0] == 1 {
        assert First(c, |m| - c)[1..] == First(Count(m[1..]), |m[1..]| - Count(m[1..]));
      } else if c == 0 {
        assert First(c, |m| - c)[1..] == First(Count(m[1..]), |m[1..]| - Count(m[1..]));
      }
    }
  }

  /** std::prev_permutation: the arrangement of the same entries that comes next in descending order. */
  function Previous(m: Mask): (r: Option<Mask>)
    ensures r.Some? ==> |r.value| == |m|
  {
    if m == [] then None else
      match Previous(m[1..])
      case Some(rest) => Some([m[0]] + rest)
      case None =>
        var c := Count(m[1..]);
        if m[0] == 1 && c < |m| - 1 then Some([0] + First(c + 1, |m| - 2 - c)) else None
  }

  /** What is left when no arrangement comes after: zeros, then ones. */
  lemma {:induction false} NoneIsLast(m: Mask, c: Mask)
    requires IsMask(m) && IsMask(c) && |c| == |m| && Count(c) == Count(m) && Previous(m) == None
    ensures !Less(c, m)
  {
    if m != [] {
      CountBound(m[1..]);
      CountBound(c[1..]);
      if c[0] == m[0] {
        NoneIsLast(m[1..], c[1..]);
      }
    }
  }

  lemma {:induction false} PreviousKeeps(m: Mask)
    requires IsMask(m) && Previous(m).Some?
    ensures IsMask(Previous(m).value) && Count(Previous(m).value) == Count(m) && Less(Previous(m).value, m)
  {
    var r := Previous(m).value;
    if Previous(m[1..]).Some? {
      PreviousKeeps(m[1..]);
      assert r[1..] == Previous(m[1..]).value;
    } else {
      var c := Count(m[1..]);
      FirstCount(c + 1, |m| - 2 - c);
      assert r[1..] == First(c + 1, |m| - 2 - c);
    }
  }

  /** Nothing lies between an arrangement and the one `Previous` gives. */
  lemma {:induction false} PreviousIsNext(m: Mask, c: Mask)
    requires IsMask(m) && IsMask(c) && |c| == |m| && Count(c) == Count(m) && Previous(m).Some? && Less(c, m)
    ensures !Less(Previous(m).value, c)
  {
    var r := Previous(m).value;
    if Previous(m[1..]).Some? {
      assert r == [m[0]] + Previous(m[1..]).value && r[1..] == Previous(m[1..]).value;
      if c[0] == m[0] {
        PreviousIsNext(m[1..], c[1..]);
      }
    } else {
      var k := Count(m[1..]);
      assert r[1..] == First(k + 1, |m| - 2 - k);
      if c[0] == m[0] {
        NoneIsLast(m[1..], c[1..]);
      } else {
        FirstIsGreatest(c[1..]);
      }
    }
  }
}
