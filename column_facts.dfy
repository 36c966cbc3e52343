/**
 * What each column of `generate_features` holds at sorted position `i`,
 * stated against reference definitions on the closes alone.
 */
module ColumnFacts {
  import opened Wrappers
  import opened Candles
  import opened Series
  import opened Stats
  import opened Features

  /** The close-to-close change into position `j`. */
  function Change(c: seq<real>, j: nat): real
    requires 1 <= j < |c|
  {
    c[j] - c[j - 1]
  }

  /** `delta = close.diff()`: NaN at position 0, and the close-to-close change everywhere else. */
  lemma DeltaAt(c: seq<real>)
    ensures |c| > 0 ==> Delta(c)[0] == None
    ensures forall j :: 1 <= j < |c| ==> Delta(c)[j] == Some(Change(c, j))
  {
  }

  /** The upward move into position `j`; the move into position 0 counts as 0. */
  function UpMove(c: seq<real>, j: nat): (r: real)
    requires j < |c|
    ensures r >= 0.0
  {
    if j == 0 then 0.0 else Max(Change(c, j), 0.0)
  }

  /** The size of the downward move into position `j`; 0 at position 0. */
  function DownMove(c: seq<real>, j: nat): (r: real)
    requires j < |c|
    ensures r >= 0.0
  {
    if j == 0 then 0.0 else Max(-Change(c, j), 0.0)
  }

  function UpMoves(c: seq<real>): (r: seq<real>)
    ensures |r| == |c| && AllNonNegative(r)
  {
    seq(|c|, j requires 0 <= j < |c| => UpMove(c, j))
  }

  function DownMoves(c: seq<real>): (r: seq<real>)
    ensures |r| == |c| && AllNonNegative(r)
  {
    seq(|c|, j requires 0 <= j < |c| => DownMove(c, j))
  }

  /** The upward moves of the 14-delta window ending at `i`. */
  function UpWindow(c: seq<real>, i: nat): (r: seq<real>)
    requires RsiWindow - 1 <= i < |c|
    ensures |r| == RsiWindow && AllNonNegative(r)
  {
    var r := seq(RsiWindow, k requires 0 <= k < RsiWindow => UpMove(c, i + 1 - RsiWindow + k));
    assert forall k :: 0 <= k < RsiWindow ==> r[k] == UpMove(c, i + 1 - RsiWindow + k);
    r
  }

  /** The downward move sizes of the 14-delta window ending at `i`. */
  function DownWindow(c: seq<real>, i: nat): (r: seq<real>)
    requires RsiWindow - 1 <= i < |c|
    ensures |r| == RsiWindow && AllNonNegative(r)
  {
    var r := seq(RsiWindow, k requires 0 <= k < RsiWindow => DownMove(c, i + 1 - RsiWindow + k));
    assert forall k :: 0 <= k < RsiWindow ==> r[k] == DownMove(c, i + 1 - RsiWindow + k);
    r
  }

  /** Mean of the 14 upward moves ending at `i`. */
  function MeanGain(c: seq<real>, i: nat): real
    requires RsiWindow - 1 <= i < |c|
  {
    Mean(UpWindow(c, i))
  }

  /** Mean of the 14 downward moves ending at `i`. */
  function MeanLoss(c: seq<real>, i: nat): real
    requires RsiWindow - 1 <= i < |c|
  {
    Mean(DownWindow(c, i))
  }

  /** The close did not change across the 14 deltas ending at `i`. */
  predicate FlatWindow(c: seq<real>, i: nat)
    requires i < |c|
  {
    forall j :: i < j + RsiWindow && 1 <= j <= i ==> Change(c, j) == 0.0
  }

  lemma {:induction false} SumPresentLift(xs: seq<real>)
    ensures SumPresent(Lift(xs)) == Sum(xs)
  {
    if xs != [] {
      var n := |xs| - 1;
      assert Lift(xs)[..n] == Lift(xs[..n]);
      SumPresentLift(xs[..n]);
    }
  }

  /** A rolling mean over a column without NaN is the mean of the trailing window once it is full. */
  lemma RollingMeanOfLift(ys: seq<real>, w: nat, i: nat)
    requires w > 0 && i < |ys|
    ensures RollingMean(Lift(ys), w)[i] == if i + 1 >= w then Some(Mean(ys[i + 1 - w..i + 1])) else None
  {
    if i + 1 >= w {
      var window := ys[i + 1 - w..i + 1];
      assert Lift(ys)[i + 1 - w..i + 1] == Lift(window);
      SumPresentLift(window);
    }
  }

  /** `sma_20[i]` is the mean of `close[i-19..i]`, and NaN before position 19. */
  lemma SmaAt(c: seq<real>, i: nat)
    requires i < |c|
    ensures Sma20(c)[i] == if i >= SmaWindow - 1 then Some(Mean(c[i + 1 - SmaWindow..i + 1])) else None
  {
    RollingMeanOfLift(c, SmaWindow, i);
  }

  /** A defined `sma_20` lies between the lowest and the highest close of its window. */
  lemma SmaWithinWindow(c: seq<real>, i: nat)
    requires i < |c| && Sma20(c)[i].Some?
    ensures exists k :: i + 1 - SmaWindow <= k <= i && c[k] <= Sma20(c)[i].value
    ensures exists k :: i + 1 - SmaWindow <= k <= i && Sma20(c)[i].value <= c[k]
  {
    SmaAt(c, i);
    var lo := i + 1 - SmaWindow;
    var window := c[lo..i + 1];
    MeanBetweenExtremes(window);
    assert c[lo + ArgMin(window)] == window[ArgMin(window)];
    assert c[lo + ArgMax(window)] == window[ArgMax(window)];
  }

  /** The column `gain` is rolling over is the sequence of upward moves. */
  lemma GainInput(c: seq<real>)
    ensures Where(Delta(c), IsRise, 0.0) == Lift(UpMoves(c))
  {
    var a, b := Where(Delta(c), IsRise, 0.0), Lift(UpMoves(c));
    forall j | 0 <= j < |c| ensures a[j] == b[j] {
      assert b[j] == Some(UpMove(c, j));
      if j > 0 {
        var d := Change(c, j);
        assert Delta(c)[j] == Some(d);
        assert a[j] == if IsRise(d) then Some(d) else Some(0.0);
      } else {
        assert a[j] == Some(0.0);
      }
    }
  }

  /** The column `loss` is rolling over is the sequence of downward move sizes. */
  lemma LossInput(c: seq<real>)
    ensures Negate(Where(Delta(c), IsFall, 0.0)) == Lift(DownMoves(c))
  {
    var w := Where(Delta(c), IsFall, 0.0);
    var a, b := Negate(w), Lift(DownMoves(c));
    forall j | 0 <= j < |c| ensures a[j] == b[j] {
      assert b[j] == Some(DownMove(c, j));
      if j > 0 {
        var d := Change(c, j);
        assert Delta(c)[j] == Some(d);
        assert w[j] == if IsFall(d) then Some(d) else Some(0.0);
      } else {
        assert w[j] == Some(0.0);
      }
    }
  }

  /** `gain[i]` is the mean of the 14 upward moves ending at `i` (the first delta counting 0). */
  lemma GainAt(c: seq<real>, i: nat)
    requires i < |c|
    ensures Gain(c)[i] == if i >= RsiWindow - 1 then Some(MeanGain(c, i)) else None
  {
    GainInput(c);
    RollingMeanOfLift(UpMoves(c), RsiWindow, i);
    if i >= RsiWindow - 1 {
      assert UpMoves(c)[i + 1 - RsiWindow..i + 1] == UpWindow(c, i);
    }
  }

  /** `loss[i]` is the mean of the 14 downward move sizes ending at `i`. */
  lemma LossAt(c: seq<real>, i: nat)
    requires i < |c|
    ensures Loss(c)[i] == if i >= RsiWindow - 1 then Some(MeanLoss(c, i)) else None
  {
    LossInput(c);
    RollingMeanOfLift(DownMoves(c), RsiWindow, i);
    if i >= RsiWindow - 1 {
      assert DownMoves(c)[i + 1 - RsiWindow..i + 1] == DownWindow(c, i);
    }
  }

  /**
   * The RSI cases: NaN before position 13; exactly 100 when there is no loss
   * but some gain; NaN when both are zero; otherwise the formula, in [0, 100).
   */
  lemma RsiAt(c: seq<real>, i: nat)
    requires i < |c|
    ensures i < RsiWindow - 1 ==> Rsi(c)[i] == None
    ensures i >= RsiWindow - 1 ==>
      var g, l := MeanGain(c, i), MeanLoss(c, i);
      && g >= 0.0 && l >= 0.0
      && (l == 0.0 && g > 0.0 ==> Rsi(c)[i] == Some(100.0))
      && (l == 0.0 && g == 0.0 ==> Rsi(c)[i] == None)
      && (l > 0.0 ==> Rsi(c)[i] == Some(100.0 - 100.0 / (1.0 + g / l)))
      && (l > 0.0 ==> 0.0 <= Rsi(c)[i].value < 100.0)
  {
    GainAt(c, i);
    LossAt(c, i);
    if i >= RsiWindow - 1 {
      var g, l := MeanGain(c, i), MeanLoss(c, i);
      SumZeroIff(UpWindow(c, i));
      SumZeroIff(DownWindow(c, i));
      if l > 0.0 {
        RsiFormulaBounds(g, l);
      }
    }
  }

  /**
   * The same value in the form `100 * gain / (gain + loss)`: defined
   * exactly when the window is full and not both means are zero, and equal to
   * 100 exactly when the loss is zero.
   */
  lemma RsiClosedForm(c: seq<real>, i: nat)
    requires i < |c|
    ensures Rsi(c)[i].Some? <==> i >= RsiWindow - 1 && MeanGain(c, i) + MeanLoss(c, i) > 0.0
    ensures Rsi(c)[i].Some? ==>
      var g, l := MeanGain(c, i), MeanLoss(c, i);
      && Rsi(c)[i].value == 100.0 * g / (g + l)
      && 0.0 <= Rsi(c)[i].value <= 100.0
      && (Rsi(c)[i].value == 100.0 <==> l == 0.0)
  {
    RsiAt(c, i);
    if i >= RsiWindow - 1 {
      var g, l := MeanGain(c, i), MeanLoss(c, i);
      if l > 0.0 {
        RsiAlgebra(g, l);
        assert 100.0 * g / (g + l) <= 100.0 by {
          assert 100.0 * g <= 100.0 * (g + l);
        }
      }
    }
  }

  /**
   * The simple-mean RSI of this code at position `i`, written without the
   * `1 + RS` detour: the means are plain averages of the 14 moves ending at
   * `i` (not Wilder's smoothed averages), the move into position 0 counting
   * as 0, so it is defined from position 13 on unless the window is flat,
   * and is then `100 g / (g + l)`.
   */
  function RsiReference(c: seq<real>, i: nat): Option<real>
    requires i < |c|
  {
    if i >= RsiWindow - 1 && MeanGain(c, i) + MeanLoss(c, i) > 0.0
    then Some(100.0 * MeanGain(c, i) / (MeanGain(c, i) + MeanLoss(c, i)))
    else None
  }

  /** The RSI column agrees with the reference definition everywhere. */
  lemma RsiMatchesReference(c: seq<real>, i: nat)
    requires i < |c|
    ensures Rsi(c)[i] == RsiReference(c, i)
  {
    RsiClosedForm(c, i);
  }

  /** The mean gain is zero exactly when the close never rose within the window. */
  lemma NoGainIff(c: seq<real>, i: nat)
    requires RsiWindow - 1 <= i < |c|
    ensures MeanGain(c, i) >= 0.0
    ensures MeanGain(c, i) == 0.0 <==> forall j :: i < j + RsiWindow && 1 <= j <= i ==> Change(c, j) <= 0.0
  {
    var ups := UpWindow(c, i);
    MeanZeroIff(ups);
    assert MeanGain(c, i) == Mean(ups);
    var lo := i + 1 - RsiWindow;
    if forall k :: 0 <= k < RsiWindow ==> ups[k] == 0.0 {
      forall j | i < j + RsiWindow && 1 <= j <= i ensures Change(c, j) <= 0.0 {
        assert ups[j - lo] == UpMove(c, j) == 0.0;
      }
    }
    if forall j :: i < j + RsiWindow && 1 <= j <= i ==> Change(c, j) <= 0.0 {
      forall k | 0 <= k < RsiWindow ensures ups[k] == 0.0 {
        assert ups[k] == UpMove(c, lo + k);
      }
    }
  }

  /** The mean loss is zero exactly when the close never fell within the window. */
  lemma NoLossIff(c: seq<real>, i: nat)
    requires RsiWindow - 1 <= i < |c|
    ensures MeanLoss(c, i) >= 0.0
    ensures MeanLoss(c, i) == 0.0 <==> forall j :: i < j + RsiWindow && 1 <= j <= i ==> Change(c, j) >= 0.0
  {
    var downs := DownWindow(c, i);
    MeanZeroIff(downs);
    assert MeanLoss(c, i) == Mean(downs);
    var lo := i + 1 - RsiWindow;
    if forall k :: 0 <= k < RsiWindow ==> downs[k] == 0.0 {
      forall j | i < j + RsiWindow && 1 <= j <= i ensures Change(c, j) >= 0.0 {
        assert downs[j - lo] == DownMove(c, j) == 0.0;
      }
    }
    if forall j :: i < j + RsiWindow && 1 <= j <= i ==> Change(c, j) >= 0.0 {
      forall k | 0 <= k < RsiWindow ensures downs[k] == 0.0 {
        assert downs[k] == DownMove(c, lo + k);
      }
    }
  }

  /** Both means are zero exactly when the close stayed flat across the window. */
  lemma RsiUndefinedIffFlat(c: seq<real>, i: nat)
    requires RsiWindow - 1 <= i < |c|
    ensures MeanGain(c, i) + MeanLoss(c, i) == 0.0 <==> FlatWindow(c, i)
  {
    NoGainIff(c, i);
    NoLossIff(c, i);
  }

  /** `100 - 100 / (1 + g / l)` is `100 g / (g + l)` for a positive loss. */
  lemma RsiAlgebra(g: real, l: real)
    requires g >= 0.0 && l > 0.0
    ensures 100.0 - 100.0 / (1.0 + g / l) == 100.0 * g / (g + l)
  {
    var q := g / l;
    var s := g + l;
    assert q * l == g;
    assert (1.0 + q) * l == s;
    var a := 100.0 / (1.0 + q);
    assert a * (1.0 + q) == 100.0;
    assert a * s == 100.0 * l by {
      calc {
        a * s;
        a * ((1.0 + q) * l);
        (a * (1.0 + q)) * l;
        100.0 * l;
      }
    }
    var b := 100.0 * g / s;
    assert b * s == 100.0 * g;
    assert (100.0 - a) * s == 100.0 * g;
    var d := (100.0 - a) - b;
    assert d * s == 0.0;
    assert d == d * s / s;
  }

  /** RSI is defined at `i` exactly when the window is full and the close moved in it. */
  lemma RsiDefinedIff(c: seq<real>, i: nat)
    requires i < |c|
    ensures Rsi(c)[i].Some? <==> i >= RsiWindow - 1 && !FlatWindow(c, i)
  {
    RsiClosedForm(c, i);
    if i >= RsiWindow - 1 {
      RsiAt(c, i);
      RsiUndefinedIffFlat(c, i);
    }
  }

  /** A close that rose at every one of the 14 deltas saturates RSI at exactly 100. */
  lemma RisingWindowSaturates(c: seq<real>, i: nat)
    requires RsiWindow - 1 <= i < |c|
    requires forall j :: i < j + RsiWindow && 1 <= j <= i ==> Change(c, j) > 0.0
    ensures Rsi(c)[i] == Some(100.0)
  {
    assert Change(c, i) > 0.0;
    NoGainIff(c, i);
    NoLossIff(c, i);
    RsiAt(c, i);
  }

  /** A close that fell at every one of the 14 deltas gives RSI exactly 0. */
  lemma FallingWindowBottoms(c: seq<real>, i: nat)
    requires RsiWindow - 1 <= i < |c|
    requires forall j :: i < j + RsiWindow && 1 <= j <= i ==> Change(c, j) < 0.0
    ensures Rsi(c)[i] == Some(0.0)
  {
    assert Change(c, i) < 0.0;
    NoGainIff(c, i);
    NoLossIff(c, i);
    RsiAt(c, i);
  }

  /** `returns[i]` is `close[i] / close[i-1] - 1` from position 1 on, NaN at position 0. */
  lemma ReturnsAt(c: seq<Price>, i: nat)
    requires i < |c|
    ensures Returns(c)[i].Some? <==> i >= 1
    ensures i >= 1 ==> Returns(c)[i].value == c[i] as real / c[i - 1] as real - 1.0
  {
  }

  /** Compounds a start price by successive one-step returns. */
  function Compound(start: real, rs: seq<real>): (r: seq<real>)
    ensures |r| == |rs| + 1 && r[0] == start
    decreases rs
  {
    if rs == [] then [start] else [start] + Compound(start * (1.0 + rs[0]), rs[1..])
  }

  /** The one-step returns `close[j+1] / close[j] - 1`: exactly the defined entries of `returns`. */
  function StepReturns(c: seq<Price>): (r: seq<real>)
    requires |c| >= 1
    ensures |r| == |c| - 1
    ensures Returns(c)[0] == None
    ensures forall j :: 0 <= j < |c| - 1 ==> Returns(c)[j + 1] == Some(r[j])
  {
    seq(|c| - 1, j requires 0 <= j < |c| - 1 => c[j + 1] as real / c[j] as real - 1.0)
  }

  /** One compounding step: the start price, then the rest compounded from the grown price. */
  lemma CompoundStep(start: real, rs: seq<real>)
    requires rs != []
    ensures Compound(start, rs) == [start] + Compound(start * (1.0 + rs[0]), rs[1..])
  {
  }

  /** Dropping the first return leaves the returns of the closes after the first. */
  lemma StepReturnsTail(c: seq<Price>)
    requires |c| > 1
    ensures StepReturns(c)[1..] == StepReturns(c[1..])
  {
    var a, b := StepReturns(c)[1..], StepReturns(c[1..]);
    forall j | 0 <= j < |a| ensures a[j] == b[j] {
      assert a[j] == c[j + 2] as real / c[j + 1] as real - 1.0;
    }
  }

  /** Growing a positive price by its step return gives the next price. */
  lemma StepReturnGrows(c0: real, c1: real)
    requires c0 > 0.0
    ensures c0 * (1.0 + (c1 / c0 - 1.0)) == c1
  {
  }

  /** The first close and the one-step returns together give back every close. */
  lemma {:induction false} CompoundReturnsRebuildsCloses(c: seq<Price>)
    requires |c| >= 1
    ensures Compound(c[0], StepReturns(c)) == c
  {
    if |c| > 1 {
      var rs, tail := StepReturns(c), c[1..];
      var c0, c1 := c[0] as real, c[1] as real;
      assert rs[0] == c1 / c0 - 1.0;
      StepReturnGrows(c0, c1);
      StepReturnsTail(c);
      CompoundReturnsRebuildsCloses(tail);
      assert tail[0] == c[1];
      assert c0 * (1.0 + rs[0]) == c1;
      assert Compound(c1, rs[1..]) == tail;
      CompoundStep(c0, rs);
      assert Compound(c0, rs) == [c0] + tail;
      assert c == [c[0]] + tail;
    }
  }

  /** `lag_returns_k[i]` is `returns[i-k]`: defined exactly from position `k + 1` on. */
  lemma LagAt(c: seq<Price>, k: nat, i: nat)
    requires 1 <= k && i < |c|
    ensures LagReturns(c, k)[i] == if i >= k then Returns(c)[i - k] else None
    ensures LagReturns(c, k)[i].Some? <==> i >= k + 1
    ensures LagReturns(c, k)[i].Some? ==> LagReturns(c, k)[i].value == c[i - k] as real / c[i - k - 1] as real - 1.0
  {
    if i >= k { ReturnsAt(c, i - k); }
  }

  /**
   * `target[i]` is 0 or 1, and 1 exactly when a close five positions later
   * exists and is strictly higher: the last five rows always get 0.
   */
  lemma TargetAt(c: seq<real>, i: nat)
    requires i < |c|
    ensures Target(c)[i] == 0 || Target(c)[i] == 1
    ensures Target(c)[i] == 1 <==> i + Horizon < |c| && c[i + Horizon] > c[i]
  {
    var later := Shift(Lift(c), -(Horizon as int));
    assert later[i] == if i + Horizon < |c| then Some(c[i + Horizon]) else None;
  }

  /** The labelled example: rising five steps later gives 1, falling gives 0. */
  lemma TargetExample()
    ensures Target([1.0, 1.1, 1.05, 1.2, 1.3, 1.25, 0.9])[0] == 1
    ensures Target([1.0, 1.1, 1.05, 1.2, 1.3, 1.25, 0.9])[1] == 0
    ensures Target([1.0, 1.1, 1.05, 1.2, 1.3, 1.25, 0.9])[6] == 0
  {
    var c := [1.0, 1.1, 1.05, 1.2, 1.3, 1.25, 0.9];
    TargetAt(c, 0);
    TargetAt(c, 1);
    TargetAt(c, 6);
  }

  /** `sma_20[i]` depends only on the closes up to position `i`. */
  lemma SmaPrefix(c: seq<real>, k: nat, i: nat)
    requires i < k <= |c|
    ensures Sma20(c[..k])[i] == Sma20(c)[i]
  {
    SmaAt(c[..k], i);
    SmaAt(c, i);
    if i >= SmaWindow - 1 {
      assert c[..k][i + 1 - SmaWindow..i + 1] == c[i + 1 - SmaWindow..i + 1];
    }
  }

  /** The 14-delta windows ending at `i` depend only on the closes up to `i`. */
  lemma WindowsPrefix(c: seq<real>, k: nat, i: nat)
    requires RsiWindow - 1 <= i < k <= |c|
    ensures UpWindow(c[..k], i) == UpWindow(c, i)
    ensures DownWindow(c[..k], i) == DownWindow(c, i)
  {
    var p := c[..k];
    forall t | 0 <= t < RsiWindow
      ensures UpWindow(p, i)[t] == UpWindow(c, i)[t]
      ensures DownWindow(p, i)[t] == DownWindow(c, i)[t]
    {
      var j := i + 1 - RsiWindow + t;
      assert UpWindow(p, i)[t] == UpMove(p, j) && UpWindow(c, i)[t] == UpMove(c, j);
      assert DownWindow(p, i)[t] == DownMove(p, j) && DownWindow(c, i)[t] == DownMove(c, j);
      if j > 0 {
        assert Change(p, j) == Change(c, j);
      }
    }
  }

  /** `rsi[i]` depends only on the closes up to position `i`. */
  lemma RsiPrefix(c: seq<real>, k: nat, i: nat)
    requires i < k <= |c|
    ensures Rsi(c[..k])[i] == Rsi(c)[i]
  {
    RsiMatchesReference(c[..k], i);
    RsiMatchesReference(c, i);
    if i >= RsiWindow - 1 {
      WindowsPrefix(c, k, i);
    }
  }

  /** `returns[i]` depends only on the closes up to position `i`. */
  lemma ReturnsPrefix(c: seq<Price>, k: nat, i: nat)
    requires i < k <= |c|
    ensures Returns(c[..k])[i] == Returns(c)[i]
  {
  }

  /** `lag_returns_n[i]` depends only on the closes up to position `i`. */
  lemma LagPrefix(c: seq<Price>, k: nat, n: nat, i: nat)
    requires i < k <= |c|
    ensures LagReturns(c[..k], n)[i] == LagReturns(c, n)[i]
  {
    if i >= n {
      ReturnsPrefix(c, k, i - n);
    }
  }

  /** `sma_20` at position `i >= 19` of a later slice `c[p..]` is `sma_20` at `p + i` of the whole. */
  lemma SmaSuffix(c: seq<real>, p: nat, i: nat)
    requires p <= |c| && SmaWindow - 1 <= i < |c| - p
    ensures Sma20(c[p..])[i] == Sma20(c)[p + i]
  {
    SmaAt(c[p..], i);
    SmaAt(c, p + i);
    assert c[p..][i + 1 - SmaWindow..i + 1] == c[p + i + 1 - SmaWindow..p + i + 1];
  }

  /**
   * The 14-delta windows ending at position `i >= 14` of a later slice are
   * those ending at `p + i` of the whole: none of their deltas is the slice's
   * first, which the slice counts as 0.
   */
  lemma WindowsSuffix(c: seq<real>, p: nat, i: nat)
    requires p <= |c| && RsiWindow <= i < |c| - p
    ensures UpWindow(c[p..], i) == UpWindow(c, p + i)
    ensures DownWindow(c[p..], i) == DownWindow(c, p + i)
  {
    var q := c[p..];
    forall t | 0 <= t < RsiWindow
      ensures UpWindow(q, i)[t] == UpWindow(c, p + i)[t]
      ensures DownWindow(q, i)[t] == DownWindow(c, p + i)[t]
    {
      var j := i + 1 - RsiWindow + t;
      assert p + i + 1 - RsiWindow + t == p + j;
      assert UpWindow(q, i)[t] == UpMove(q, j) && UpWindow(c, p + i)[t] == UpMove(c, p + j);
      assert DownWindow(q, i)[t] == DownMove(q, j) && DownWindow(c, p + i)[t] == DownMove(c, p + j);
      assert Change(q, j) == Change(c, p + j);
    }
  }

  /** `rsi` at position `i >= 14` of a later slice is `rsi` at `p + i` of the whole. */
  lemma RsiSuffix(c: seq<real>, p: nat, i: nat)
    requires p <= |c| && RsiWindow <= i < |c| - p
    ensures Rsi(c[p..])[i] == Rsi(c)[p + i]
  {
    RsiMatchesReference(c[p..], i);
    RsiMatchesReference(c, p + i);
    WindowsSuffix(c, p, i);
  }

  /** `returns` at position `i >= 1` of a later slice is `returns` at `p + i` of the whole. */
  lemma ReturnsSuffix(c: seq<Price>, p: nat, i: nat)
    requires p <= |c| && 1 <= i < |c| - p
    ensures Returns(c[p..])[i] == Returns(c)[p + i]
  {
    ReturnsAt(c[p..], i);
    ReturnsAt(c, p + i);
  }

  /** `lag_returns_k` at position `i >= k + 1` of a later slice is its value at `p + i` of the whole. */
  lemma LagSuffix(c: seq<Price>, p: nat, k: nat, i: nat)
    requires p <= |c| && k + 1 <= i < |c| - p
    ensures LagReturns(c[p..], k)[i] == LagReturns(c, k)[p + i]
  {
    ReturnsSuffix(c, p, i - k);
    assert p + i - k == p + (i - k);
  }

  /** `target` at position `i` of a later slice is `target` at `p + i` of the whole. */
  lemma TargetSuffix(c: seq<real>, p: nat, i: nat)
    requires p <= |c| && i < |c| - p
    ensures Target(c[p..])[i] == Target(c)[p + i]
  {
    TargetAt(c[p..], i);
    TargetAt(c, p + i);
    if i + Horizon < |c| - p {
      assert c[p..][i + Horizon] == c[p + i + Horizon];
    }
  }
}
