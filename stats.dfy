/** Sums and means of real sequences: the reference arithmetic the column lemmas use. */
module Stats {

  function Sum(xs: seq<real>): real
  {
    if xs == [] then 0.0 else Sum(xs[..|xs| - 1]) + xs[|xs| - 1]
  }

  function Mean(xs: seq<real>): real
    requires |xs| > 0
  {
    Sum(xs) / |xs| as real
  }

  function Max(a: real, b: real): real
  {
    if a >= b then a else b
  }

  predicate AllNonNegative(xs: seq<real>)
  {
    forall k :: 0 <= k < |xs| ==> xs[k] >= 0.0
  }

  /** A sum of non-negative terms is zero exactly when every term is. */
  lemma {:induction false} SumZeroIff(xs: seq<real>)
    requires AllNonNegative(xs)
    ensures Sum(xs) >= 0.0
    ensures Sum(xs) == 0.0 <==> forall k :: 0 <= k < |xs| ==> xs[k] == 0.0
  {
    if xs != [] {
      var front := xs[..|xs| - 1];
      assert forall k :: 0 <= k < |front| ==> front[k] == xs[k];
      SumZeroIff(front);
    }
  }

  /** Terms between `lo` and `hi` sum to between `n * lo` and `n * hi`. */
  lemma {:induction false} SumBounds(xs: seq<real>, lo: real, hi: real)
    requires forall k :: 0 <= k < |xs| ==> lo <= xs[k] <= hi
    ensures |xs| as real * lo <= Sum(xs) <= |xs| as real * hi
  {
    if xs != [] {
      var front := xs[..|xs| - 1];
      assert forall k :: 0 <= k < |front| ==> front[k] == xs[k];
      SumBounds(front, lo, hi);
      var m, x := |front| as real, xs[|xs| - 1];
      assert Sum(xs) == Sum(front) + x;
      assert m * lo <= Sum(front) <= m * hi;
      assert lo <= x <= hi;
      assert |xs| as real * lo == m * lo + lo by {
        assert |xs| as real == m + 1.0;
      }
      assert |xs| as real * hi == m * hi + hi by {
        assert |xs| as real == m + 1.0;
      }
    }
  }

  /** Dividing by a positive count keeps a bound on the total as a bound on the quotient. */
  lemma QuotientBounds(total: real, n: real, lo: real, hi: real)
    requires n > 0.0
    requires n * lo <= total <= n * hi
    ensures lo <= total / n <= hi
  {
    assert total == n * (total / n);
  }

  /** Terms between `lo` and `hi` have their mean between them too. */
  lemma MeanBounds(xs: seq<real>, lo: real, hi: real)
    requires |xs| > 0
    requires forall k :: 0 <= k < |xs| ==> lo <= xs[k] <= hi
    ensures lo <= Mean(xs) <= hi
  {
    SumBounds(xs, lo, hi);
    QuotientBounds(Sum(xs), |xs| as real, lo, hi);
  }

  /** Position of a smallest term. */
  function ArgMin(xs: seq<real>): (k: nat)
    requires |xs| > 0
    ensures k < |xs| && forall m :: 0 <= m < |xs| ==> xs[k] <= xs[m]
  {
    if |xs| == 1 then 0
    else
      var k := ArgMin(xs[..|xs| - 1]);
      assert forall m :: 0 <= m < |xs| - 1 ==> xs[..|xs| - 1][m] == xs[m];
      if xs[|xs| - 1] < xs[k] then |xs| - 1 else k
  }

  /** Position of a largest term. */
  function ArgMax(xs: seq<real>): (k: nat)
    requires |xs| > 0
    ensures k < |xs| && forall m :: 0 <= m < |xs| ==> xs[m] <= xs[k]
  {
    if |xs| == 1 then 0
    else
      var k := ArgMax(xs[..|xs| - 1]);
      assert forall m :: 0 <= m < |xs| - 1 ==> xs[..|xs| - 1][m] == xs[m];
      if xs[|xs| - 1] > xs[k] then |xs| - 1 else k
  }

  /** The mean lies between the smallest and the largest term. */
  lemma MeanBetweenExtremes(xs: seq<real>)
    requires |xs| > 0
    ensures xs[ArgMin(xs)] <= Mean(xs) <= xs[ArgMax(xs)]
  {
    MeanBounds(xs, xs[ArgMin(xs)], xs[ArgMax(xs)]);
  }

  /** A mean of non-negative terms is non-negative, and zero exactly when every term is. */
  lemma MeanZeroIff(xs: seq<real>)
    requires |xs| > 0 && AllNonNegative(xs)
    ensures Mean(xs) >= 0.0
    ensures Mean(xs) == 0.0 <==> forall k :: 0 <= k < |xs| ==> xs[k] == 0.0
  {
    SumZeroIff(xs);
  }
}
