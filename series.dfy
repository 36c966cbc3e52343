/**
 * The pandas column operations the feature builder uses, on columns of
 * optional reals (`None` is NaN). Each keeps the column's length and works
 * position by position, as the vectorised pandas operations do.
 */
module Series {
  import opened Wrappers
  import opened Candles

  type Column = seq<Option<real>>

  /** A column with no missing entries. */
  function Lift(xs: seq<real>): (r: Column)
    ensures |r| == |xs|
    ensures forall i :: 0 <= i < |xs| ==> r[i] == Some(xs[i])
  {
    seq(|xs|, i requires 0 <= i < |xs| => Some(xs[i]))
  }

  /** Every entry of the column is present. */
  predicate AllPresent(xs: Column)
  {
    forall i :: 0 <= i < |xs| ==> xs[i].Some?
  }

  /** Every present entry of the column is non-negative. */
  predicate NonNegative(xs: Column)
  {
    forall i :: 0 <= i < |xs| && xs[i].Some? ==> xs[i].value >= 0.0
  }

  /** The sum of the present entries. */
  function SumPresent(xs: Column): real
  {
    if xs == [] then 0.0
    else SumPresent(xs[..|xs| - 1]) + (match xs[|xs| - 1] case Some(v) => v case None => 0.0)
  }

  /** `s.diff()`: the difference with the previous entry; NaN at position 0 and next to a NaN. */
  function Diff(xs: Column): (r: Column)
    ensures |r| == |xs|
  {
    seq(|xs|, i requires 0 <= i < |xs| =>
      if i > 0 && xs[i].Some? && xs[i - 1].Some? then Some(xs[i].value - xs[i - 1].value) else None)
  }

  /**
   * `s.where(cond, other)`: keeps an entry whose condition holds and puts
   * `other` everywhere else; a comparison with NaN is false, so NaN entries
   * become `other` too.
   */
  function Where(xs: Column, keep: real -> bool, other: real): (r: Column)
    ensures |r| == |xs|
  {
    seq(|xs|, i requires 0 <= i < |xs| =>
      if xs[i].Some? && keep(xs[i].value) then xs[i] else Some(other))
  }

  /** Unary minus on a column. */
  function Negate(xs: Column): (r: Column)
    ensures |r| == |xs|
  {
    seq(|xs|, i requires 0 <= i < |xs| => match xs[i] case Some(v) => Some(-v) case None => None)
  }

  /**
   * `s.rolling(window=w).mean()`: the mean of the `w` entries ending at each
   * position; NaN while fewer than `w` entries exist or when one of them is NaN.
   */
  function RollingMean(xs: Column, w: nat): (r: Column)
    requires w > 0
    ensures |r| == |xs|
  {
    seq(|xs|, i requires 0 <= i < |xs| =>
      if i + 1 >= w && AllPresent(xs[i + 1 - w..i + 1])
      then Some(SumPresent(xs[i + 1 - w..i + 1]) / w as real)
      else None)
  }

  /** `s.shift(k)`: entry `i` is entry `i - k` of the input, NaN where that falls outside. */
  function Shift(xs: Column, k: int): (r: Column)
    ensures |r| == |xs|
  {
    seq(|xs|, i requires 0 <= i < |xs| => if 0 <= i - k < |xs| then xs[i - k] else None)
  }

  /** `s.pct_change()` on positive prices: `x[i] / x[i-1] - 1`, NaN at position 0. */
  function PctChange(xs: seq<Price>): (r: Column)
    ensures |r| == |xs|
  {
    seq(|xs|, i requires 0 <= i < |xs| => if i > 0 then Some(xs[i] as real / xs[i - 1] as real - 1.0) else None)
  }

  /** `(a > b).astype(int)`: 1 where both are present and `a` is strictly larger, else 0. */
  function GreaterThan(a: Column, b: Column): (r: seq<int>)
    requires |a| == |b|
    ensures |r| == |a|
  {
    seq(|a|, i requires 0 <= i < |a| =>
      if a[i].Some? && b[i].Some? && a[i].value > b[i].value then 1 else 0)
  }
}
