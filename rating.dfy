/** ComputeAverageRating: the integer mean of a document's ratings, with C++
    integer division (the quotient truncated toward zero). */
module Rating {

  function Abs(x: int): nat {
    if x < 0 then -x else x
  }

  /** The sum of the ratings, added from left to right. */
  function Sum(s: seq<int>): int {
    if s == [] then 0 else Sum(s[..|s| - 1]) + s[|s| - 1]
  }

  /** C++ `a / b` for a positive divisor: the quotient truncated toward zero,
      i.e. the remainder a - q * b is smaller than b in magnitude and has the
      sign of a (Dafny's own `/` rounds toward negative infinity here). */
  function TruncDiv(a: int, b: int): (q: int)
    requires b > 0
    ensures Abs(a - q * b) < b
    ensures a >= 0 ==> a - q * b >= 0
    ensures a <= 0 ==> a - q * b <= 0
  {
    if a >= 0 then a / b else -((-a) / b)
  }

  /** The stored rating of a document: 0 without ratings, else the truncated mean. */
  function AverageRating(ratings: seq<int>): int {
    if ratings == [] then 0 else TruncDiv(Sum(ratings), |ratings|)
  }

  /** ComputeAverageRating (main.cpp sums in a loop, search_server.cpp with
      std::accumulate; both divide the sum by the count). */
  method ComputeAverageRating(ratings: seq<int>) returns (r: int)
    ensures r == AverageRating(ratings)
  {
    if |ratings| == 0 {
      return 0;
    }
    var ratingSum := 0;
    for i := 0 to |ratings|
      invariant ratingSum == Sum(ratings[..i])
    {
      assert ratings[..i + 1][..i] == ratings[..i];
      ratingSum := ratingSum + ratings[i];
    }
    assert ratings[..|ratings|] == ratings;
    r := TruncDiv(ratingSum, |ratings|);
  }

  lemma {:induction false} SumBounds(s: seq<int>, lo: int, hi: int)
    requires forall k :: 0 <= k < |s| ==> lo <= s[k] <= hi
    ensures |s| * lo <= Sum(s) <= |s| * hi
  {
    if s != [] {
      var init := s[..|s| - 1];
      assert forall k :: 0 <= k < |init| ==> init[k] == s[k];
      SumBounds(init, lo, hi);
      assert |s| * lo == |init| * lo + lo;
      assert |s| * hi == |init| * hi + hi;
    }
  }

  lemma {:induction false} MulMonotone(a: int, b: int, n: nat)
    requires a <= b
    ensures a * n <= b * n
  {
    if n > 0 {
      MulMonotone(a, b, n - 1);
      assert a * n == a * (n - 1) + a;
      assert b * n == b * (n - 1) + b;
    }
  }

  /** The average of a non-empty list of ratings lies between their bounds;
      in particular equal ratings average to themselves. */
  lemma AverageWithinBounds(ratings: seq<int>, lo: int, hi: int)
    requires ratings != []
    requires forall k :: 0 <= k < |ratings| ==> lo <= ratings[k] <= hi
    ensures lo <= AverageRating(ratings) <= hi
  {
    var n, sum := |ratings|, Sum(ratings);
    SumBounds(ratings, lo, hi);
    QuotientWithinBounds(sum, n, TruncDiv(sum, n), lo, hi);
  }

  /** A quotient whose remainder is smaller than the divisor lies between the
      bounds of the dividend divided by the divisor. */
  lemma QuotientWithinBounds(sum: int, n: nat, q: int, lo: int, hi: int)
    requires n > 0
    requires n * lo <= sum <= n * hi
    requires Abs(sum - q * n) < n
    ensures lo <= q <= hi
  {
    if q < lo {
      MulMonotone(q + 1, lo, n);
    }
    if q > hi {
      MulMonotone(hi + 1, q, n);
    }
  }

  /** The mean of -1 and -2 is -1 (truncated), where flooring would give -2. */
  lemma AverageTruncatesTowardZero()
    ensures AverageRating([-1, -2]) == -1
  {
    assert Sum([-1, -2]) == -3 by {
      assert [-1, -2][..1] == [-1];
      assert [-1][..0] == [];
    }
  }
}
