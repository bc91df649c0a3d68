/** Sizes of finite sets, and the share that a part has in a whole. */
module Counting {

  lemma SubsetSize<T>(part: set<T>, whole: set<T>)
    requires part <= whole
    ensures |part| <= |whole| && (|part| == |whole| <==> part == whole)
  {
    assert whole == part + (whole - part);
  }

  /** The sum of a sequence of numbers. */
  function Sum(xs: seq<real>): real {
    if xs == [] then 0.0 else Sum(xs[..|xs| - 1]) + xs[|xs| - 1]
  }

  lemma SumAppend(xs: seq<real>, x: real)
    ensures Sum(xs + [x]) == Sum(xs) + x
  {
    assert (xs + [x])[..|xs|] == xs;
  }

  /** The share of a count in a total; nothing has a share in an empty total. */
  function Share(part: nat, whole: nat): real {
    if whole > 0 then (part as real) / (whole as real) else 0.0
  }

  /** A share times the whole is the part. */
  lemma ShareTimesWhole(part: nat, whole: nat)
    requires whole > 0
    ensures Share(part, whole) * (whole as real) == part as real
  {
  }

  lemma ShareIsFraction(part: nat, whole: nat)
    requires part <= whole
    ensures 0.0 <= Share(part, whole) <= 1.0
    ensures whole > 0 ==> (Share(part, whole) == 1.0 <==> part == whole)
  {
    if whole > 0 {
      var q, w := Share(part, whole), whole as real;
      assert q * w == part as real;
      assert q < 0.0 ==> q * w < 0.0;
      assert q < 1.0 ==> q * w < w;
      assert q > 1.0 ==> q * w > w;
    }
  }
}
