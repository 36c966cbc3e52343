/**
 * `generate_features` (src/features.py): sort the candles by `event_time`,
 * add the indicator, lag and label columns, then drop every row that still
 * holds a NaN. Modelled as two passes: `Annotate` computes every column with
 * `None` for NaN, `DropNa` filters. Training (src/train.py) runs it on the
 * newest 5000 stored candles and inference (src/predict.py) on the newest
 * 100; once sorted, the later window is a suffix of the earlier one, and
 * `PipelineFacts.SuffixConsistency` shows that a run on a suffix returns
 * the whole run's rows from the suffix's twentieth candle on.
 */
module Features {
  import opened Wrappers
  import opened Candles
  import opened Series

  /** A candle with every derived column, before missing values are dropped. */
  datatype RawRow = RawRow(
    candle: Candle,
    sma20: Option<real>,
    rsi: Option<real>,
    stepReturn: Option<real>,
    lagReturns1: Option<real>,
    lagReturns2: Option<real>,
    lagReturns3: Option<real>,
    target: int)

  /** A row of the returned table: every derived column is present. */
  datatype FeatureRow = FeatureRow(
    candle: Candle,
    sma20: real,
    rsi: real,
    stepReturn: real,
    lagReturns1: real,
    lagReturns2: real,
    lagReturns3: real,
    target: int)

  /** Window lengths and label horizon, literals in the source. */
  const SmaWindow: nat := 20
  const RsiWindow: nat := 14
  const Horizon: nat := 5

  /** The `close_price` column. */
  function Closes(s: seq<Candle>): (c: seq<Price>)
    ensures |c| == |s|
    ensures forall i :: 0 <= i < |s| ==> c[i] == s[i].closePrice
  {
    seq(|s|, i requires 0 <= i < |s| => s[i].closePrice)
  }

  /** `sma_20`: 20-period rolling mean of the close. */
  function Sma20(c: seq<real>): (r: Column)
    ensures |r| == |c|
  {
    RollingMean(Lift(c), SmaWindow)
  }

  /** `delta = close.diff()`. */
  function Delta(c: seq<real>): (r: Column)
    ensures |r| == |c|
  {
    Diff(Lift(c))
  }

  /** The conditions `delta > 0` and `delta < 0`. */
  predicate IsRise(x: real) { x > 0.0 }
  predicate IsFall(x: real) { x < 0.0 }

  /** `gain = delta.where(delta > 0, 0).rolling(window=14).mean()`. */
  function Gain(c: seq<real>): (r: Column)
    ensures |r| == |c|
  {
    RollingMean(Where(Delta(c), IsRise, 0.0), RsiWindow)
  }

  /** `loss = (-delta.where(delta < 0, 0)).rolling(window=14).mean()`. */
  function Loss(c: seq<real>): (r: Column)
    ensures |r| == |c|
  {
    RollingMean(Negate(Where(Delta(c), IsFall, 0.0)), RsiWindow)
  }

  /** With a positive loss, `100 - 100 / (1 + g / l)` lies in [0, 100). */
  lemma RsiFormulaBounds(g: real, l: real)
    requires g >= 0.0 && l > 0.0
    ensures 0.0 <= 100.0 - 100.0 / (1.0 + g / l) < 100.0
  {
    var rs := g / l;
    assert rs >= 0.0;
    assert 0.0 < 100.0 / (1.0 + rs) <= 100.0;
  }

  /**
   * `100 - (100 / (1 + gain / loss))` at one position, with numpy's division:
   * a positive gain over a zero loss is +inf and gives exactly 100, zero over
   * zero is NaN. The means are never negative (`GainLossNonNegative`).
   */
  function RsiOf(gain: Option<real>, loss: Option<real>): (r: Option<real>)
    requires gain.Some? ==> gain.value >= 0.0
    requires loss.Some? ==> loss.value >= 0.0
    ensures r.Some? <==> gain.Some? && loss.Some? && gain.value + loss.value > 0.0
    ensures r.Some? ==> 0.0 <= r.value <= 100.0
    ensures r == Some(100.0) <==> gain.Some? && loss.Some? && gain.value > 0.0 && loss.value == 0.0
  {
    match (gain, loss)
    case (Some(g), Some(l)) =>
      if l == 0.0 then (if g == 0.0 then None else Some(100.0))
      else
        RsiFormulaBounds(g, l);
        Some(100.0 - 100.0 / (1.0 + g / l))
    case _ => None
  }

  /** The `rsi` column. */
  function Rsi(c: seq<real>): (r: Column)
    ensures |r| == |c|
  {
    var gain, loss := Gain(c), Loss(c);
    GainLossNonNegative(c);
    seq(|c|, i requires 0 <= i < |c| => RsiOf(gain[i], loss[i]))
  }

  /** `returns = close.pct_change()`. */
  function Returns(c: seq<Price>): (r: Column)
    ensures |r| == |c|
  {
    PctChange(c)
  }

  /** `lag_returns_k = returns.shift(k)`. */
  function LagReturns(c: seq<Price>, k: nat): (r: Column)
    ensures |r| == |c|
  {
    Shift(Returns(c), k)
  }

  /** `target = (close.shift(-5) > close).astype(int)`. */
  function Target(c: seq<real>): (r: seq<int>)
    ensures |r| == |c|
  {
    GreaterThan(Shift(Lift(c), -(Horizon as int)), Lift(c))
  }

  /** The rolling means of gains and of losses are never negative. */
  lemma GainLossNonNegative(c: seq<real>)
    ensures NonNegative(Gain(c)) && NonNegative(Loss(c))
  {
    var ups := Where(Delta(c), IsRise, 0.0);
    var downs := Negate(Where(Delta(c), IsFall, 0.0));
    assert NonNegative(ups);
    assert NonNegative(downs);
    RollingMeanNonNegative(ups, RsiWindow);
    RollingMeanNonNegative(downs, RsiWindow);
  }

  lemma {:induction false} SumPresentNonNegative(xs: Column)
    requires NonNegative(xs)
    ensures SumPresent(xs) >= 0.0
  {
    if xs != [] {
      SumPresentNonNegative(xs[..|xs| - 1]);
    }
  }

  lemma RollingMeanNonNegative(xs: Column, w: nat)
    requires w > 0 && NonNegative(xs)
    ensures NonNegative(RollingMean(xs, w))
  {
    var r := RollingMean(xs, w);
    forall i | 0 <= i < |r| && r[i].Some? ensures r[i].value >= 0.0 {
      SumPresentNonNegative(xs[i + 1 - w..i + 1]);
    }
  }

  /** First pass: every column of the sorted table, `None` where pandas has NaN. */
  function Annotate(s: seq<Candle>): (rows: seq<RawRow>)
    ensures |rows| == |s|
    ensures forall i :: 0 <= i < |s| ==> rows[i].candle == s[i]
  {
    var c := Closes(s);
    var sma, rsi, ret, target := Sma20(c), Rsi(c), Returns(c), Target(c);
    var lag1, lag2, lag3 := LagReturns(c, 1), LagReturns(c, 2), LagReturns(c, 3);
    seq(|s|, i requires 0 <= i < |s| =>
      RawRow(s[i], sma[i], rsi[i], ret[i], lag1[i], lag2[i], lag3[i], target[i]))
  }

  /** No column of the row is NaN (`target` is an integer and never is). */
  predicate Complete(r: RawRow)
  {
    && r.sma20.Some? && r.rsi.Some? && r.stepReturn.Some?
    && r.lagReturns1.Some? && r.lagReturns2.Some? && r.lagReturns3.Some?
  }

  /** `dropna` tests only the six derived feature columns, so a row's `target` never decides whether it is kept. */
  lemma CompleteIgnoresTarget(r: RawRow, t: int)
    ensures Complete(r.(target := t)) <==> Complete(r)
  {
  }

  function Finish(r: RawRow): FeatureRow
    requires Complete(r)
  {
    FeatureRow(r.candle, r.sma20.value, r.rsi.value, r.stepReturn.value,
               r.lagReturns1.value, r.lagReturns2.value, r.lagReturns3.value, r.target)
  }

  /**
   * The positions of the complete rows, in increasing order: exactly the rows
   * `dropna()` keeps.
   */
  ghost function KeptIndices(rows: seq<RawRow>): (idx: seq<nat>)
    ensures |idx| <= |rows|
    ensures forall j :: 0 <= j < |idx| ==> idx[j] < |rows| && Complete(rows[idx[j]])
    ensures forall j, k :: 0 <= j < k < |idx| ==> idx[j] < idx[k]
  {
    if rows == [] then []
    else
      var n := |rows| - 1;
      var front := KeptIndices(rows[..n]);
      assert forall j :: 0 <= j < |front| ==> rows[front[j]] == rows[..n][front[j]];
      if Complete(rows[n]) then front + [n] else front
  }

  /** Every complete row is among the kept ones. */
  lemma {:induction false} CompleteRowsKept(rows: seq<RawRow>, i: nat)
    requires i < |rows| && Complete(rows[i])
    ensures i in KeptIndices(rows)
  {
    var n := |rows| - 1;
    if i < n {
      assert rows[..n][i] == rows[i];
      CompleteRowsKept(rows[..n], i);
    }
  }

  /**
   * Second pass, `dropna()`: the complete rows in their original order, each
   * with its columns unwrapped.
   */
  function DropNa(rows: seq<RawRow>): (out: seq<FeatureRow>)
    ensures |out| == |KeptIndices(rows)|
    ensures forall j :: 0 <= j < |out| ==> out[j] == Finish(rows[KeptIndices(rows)[j]])
  {
    if rows == [] then []
    else
      var n := |rows| - 1;
      var front := DropNa(rows[..n]);
      assert forall j :: 0 <= j < |front| ==> front[j] == Finish(rows[KeptIndices(rows)[j]]);
      if Complete(rows[n]) then front + [Finish(rows[n])] else front
  }

  /** Every row `DropNa` keeps carries the candle of one of its input rows. */
  lemma DropNaCandles(rows: seq<RawRow>, s: seq<Candle>)
    requires |rows| == |s| && forall i :: 0 <= i < |s| ==> rows[i].candle == s[i]
    ensures forall j :: 0 <= j < |DropNa(rows)| ==> DropNa(rows)[j].candle in s
  {
    var out, idx := DropNa(rows), KeptIndices(rows);
    forall j | 0 <= j < |out| ensures out[j].candle in s {
      assert out[j].candle == s[idx[j]];
    }
  }

  lemma SameMembers(a: seq<Candle>, b: seq<Candle>)
    requires multiset(a) == multiset(b)
    ensures forall x :: x in a ==> x in b
  {
    forall x | x in a ensures x in b {
      assert x in multiset(a);
    }
  }

  /** `generate_features(df)`: sort, compute every column, drop incomplete rows. */
  function GenerateFeatures(df: seq<Candle>): (out: seq<FeatureRow>)
    ensures |out| <= |df|
    ensures forall j :: 0 <= j < |out| ==> out[j].candle in df
  {
    var sorted := SortByTime(df);
    var rows := Annotate(sorted);
    DropNaCandles(rows, sorted);
    SameMembers(sorted, df);
    DropNa(rows)
  }
}
