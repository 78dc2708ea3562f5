/** Multiplication by name: proofs that hide it use its laws one at a time. */
module RealProducts {

  function By(a: real, b: real): real {
    a * b
  }

  lemma BySum(a: real, b: real, c: real)
    ensures By(a, b + c) == By(a, b) + By(a, c) && By(b + c, a) == By(b, a) + By(c, a)
  {
  }

  lemma ByTwice(a: real, b: real, c: real)
    ensures By(By(a, b), c) == By(a, By(b, c)) && By(a, By(b, c)) == By(b, By(a, c))
  {
  }

  lemma ByConstant(a: real)
    ensures By(a, 0.0) == 0.0 && By(0.0, a) == 0.0 && By(a, 1.0) == a && By(1.0, a) == a && By(-1.0, a) == -a
  {
  }

  lemma ByNonZero(a: real, b: real)
    requires a != 0.0 && b != 0.0
    ensures By(a, b) != 0.0
  {
    if (a > 0.0) == (b > 0.0) {
      assert a * b > 0.0;
    } else {
      assert a * b < 0.0;
    }
  }

  lemma BySwap(a: real, b: real)
    ensures By(a, b) == By(b, a)
  {
  }
}
