/**
 * Properties of the whole of `generate_features`: which rows survive the
 * NaN filter, in what order, with which values, how many; why running it on
 * an earlier slice of the same candles gives the same features for the rows
 * it keeps; and why running it on a later slice, as inference does with the
 * newest candles, gives exactly the last rows of the whole run.
 */
module PipelineFacts {
  import opened Wrappers
  import opened Candles
  import opened Series
  import opened Stats
  import opened Features
  import opened ColumnFacts

  /** Sorted position of the first row whose 20-close window is full. */
  const FirstFullRow: nat := SmaWindow - 1

  /** Two first-pass rows that agree on everything but `target`. */
  predicate SameRawFeatures(a: RawRow, b: RawRow)
  {
    a.(target := 0) == b.(target := 0)
  }

  /** Two output rows that agree on the candle and every feature column. */
  predicate SameFeatures(a: FeatureRow, b: FeatureRow)
  {
    a.(target := 0) == b.(target := 0)
  }

  /** Row `i` of the first pass holds the candle and entry `i` of each column. */
  lemma AnnotateAt(s: seq<Candle>, i: nat)
    requires i < |s|
    ensures var c := Closes(s);
      Annotate(s)[i] == RawRow(s[i], Sma20(c)[i], Rsi(c)[i], Returns(c)[i],
        LagReturns(c, 1)[i], LagReturns(c, 2)[i], LagReturns(c, 3)[i], Target(c)[i])
  {
  }

  /**
   * A row survives `dropna` exactly when 19 candles precede it and the close
   * moved somewhere in its 14-delta RSI window; `target` never removes a row.
   */
  lemma CompleteIff(s: seq<Candle>, i: nat)
    requires i < |s|
    ensures Complete(Annotate(s)[i]) <==> i >= FirstFullRow && !FlatWindow(Closes(s), i)
  {
    var c := Closes(s);
    AnnotateAt(s, i);
    SmaAt(c, i);
    RsiDefinedIff(c, i);
    ReturnsAt(c, i);
    LagAt(c, 1, i);
    LagAt(c, 2, i);
    LagAt(c, 3, i);
  }

  /** When exactly the rows from position `m` on are complete, `dropna` keeps that suffix. */
  lemma {:induction false} KeptFromPosition(rows: seq<RawRow>, m: nat)
    requires forall i :: 0 <= i < |rows| ==> (Complete(rows[i]) <==> i >= m)
    ensures |KeptIndices(rows)| == if |rows| >= m then |rows| - m else 0
    ensures forall j :: 0 <= j < |KeptIndices(rows)| ==> KeptIndices(rows)[j] == m + j
  {
    if rows != [] {
      var n := |rows| - 1;
      assert forall i :: 0 <= i < n ==> rows[..n][i] == rows[i];
      KeptFromPosition(rows[..n], m);
    }
  }

  /** When no row before position `m` is complete, at most the rows from `m` on are kept. */
  lemma {:induction false} KeptBound(rows: seq<RawRow>, m: nat)
    requires forall i :: 0 <= i < |rows| && Complete(rows[i]) ==> i >= m
    ensures |KeptIndices(rows)| <= if |rows| >= m then |rows| - m else 0
  {
    if rows != [] {
      var n := |rows| - 1;
      assert forall i :: 0 <= i < n ==> rows[..n][i] == rows[i];
      KeptBound(rows[..n], m);
    }
  }

  /** The rows from position `m` on are complete, and no earlier row is. */
  predicate CompleteExactlyFrom(rows: seq<RawRow>, m: nat)
  {
    forall i :: 0 <= i < |rows| ==> (Complete(rows[i]) <==> i >= m)
  }

  /** Row `i` holds candle `i`, for every `i`. */
  predicate CarriesCandles(rows: seq<RawRow>, s: seq<Candle>)
  {
    |rows| == |s| && forall i :: 0 <= i < |s| ==> rows[i].candle == s[i]
  }

  lemma AnnotateCarriesCandles(s: seq<Candle>)
    ensures CarriesCandles(Annotate(s), s)
  {
  }

  /** The rows are the candles from position `m` on, one each, in order. */
  predicate HoldsSuffix(out: seq<FeatureRow>, s: seq<Candle>, m: nat)
  {
    && |out| == (if |s| >= m then |s| - m else 0)
    && forall j :: 0 <= j < |out| ==> m + j < |s| && out[j].candle == s[m + j]
  }

  /** When exactly the rows from `m` on are complete, `dropna` keeps the candles from `m` on. */
  lemma SuffixKept(rows: seq<RawRow>, s: seq<Candle>, m: nat)
    requires CarriesCandles(rows, s)
    requires CompleteExactlyFrom(rows, m)
    ensures HoldsSuffix(DropNa(rows), s, m)
  {
    KeptFromPosition(rows, m);
  }

  /** Filtering a prefix of the rows gives a prefix of the filtered rows. */
  lemma {:induction false} DropNaPrefix(rows: seq<RawRow>, k: nat)
    requires k <= |rows|
    ensures |DropNa(rows[..k])| <= |DropNa(rows)|
    ensures DropNa(rows[..k]) == DropNa(rows)[..|DropNa(rows[..k])|]
  {
    if k < |rows| {
      var n := |rows| - 1;
      var front := rows[..n];
      assert rows[..k] == front[..k];
      DropNaPrefix(front, k);
      var whole := DropNa(rows);
      assert whole == DropNa(front) || whole == DropNa(front) + [Finish(rows[n])];
      assert DropNa(front) == whole[..|DropNa(front)|];
    } else {
      assert rows[..k] == rows;
    }
  }

  /** `dropna` does not look at `target`: rows that differ only there are kept alike. */
  lemma {:induction false} DropNaIgnoresTarget(a: seq<RawRow>, b: seq<RawRow>)
    requires |a| == |b|
    requires forall i :: 0 <= i < |a| ==> SameRawFeatures(a[i], b[i])
    ensures KeptIndices(a) == KeptIndices(b)
    ensures |DropNa(a)| == |DropNa(b)|
    ensures forall j :: 0 <= j < |DropNa(a)| ==> SameFeatures(DropNa(a)[j], DropNa(b)[j])
  {
    if a != [] {
      var n := |a| - 1;
      assert forall i :: 0 <= i < n ==> a[..n][i] == a[i] && b[..n][i] == b[i];
      DropNaIgnoresTarget(a[..n], b[..n]);
      assert a[n].(target := 0).sma20 == a[n].sma20;
      assert Complete(a[n]) <==> Complete(b[n]);
    }
    var idx := KeptIndices(a);
    forall j | 0 <= j < |DropNa(a)| ensures SameFeatures(DropNa(a)[j], DropNa(b)[j]) {
      assert SameRawFeatures(a[idx[j]], b[idx[j]]);
    }
  }

  /** Every feature column of a row depends only on the candles up to that row. */
  lemma AnnotatePrefix(s: seq<Candle>, k: nat, i: nat)
    requires i < k <= |s|
    ensures SameRawFeatures(Annotate(s[..k])[i], Annotate(s)[i])
  {
    var c := Closes(s);
    assert Closes(s[..k]) == c[..k];
    AnnotateAt(s[..k], i);
    AnnotateAt(s, i);
    SmaPrefix(c, k, i);
    RsiPrefix(c, k, i);
    ReturnsPrefix(c, k, i);
    LagPrefix(c, k, 1, i);
    LagPrefix(c, k, 2, i);
    LagPrefix(c, k, 3, i);
  }

  /**
   * Running on the first `k` candles of a sorted table gives rows that are a
   * prefix of the full run's rows, with identical candles and feature
   * values; only `target` may differ, since it looks five candles ahead.
   */
  lemma PrefixConsistency(s: seq<Candle>, k: nat)
    requires Sorted(s) && k <= |s|
    ensures |GenerateFeatures(s[..k])| <= |GenerateFeatures(s)|
    ensures forall j :: 0 <= j < |GenerateFeatures(s[..k])| ==>
              SameFeatures(GenerateFeatures(s[..k])[j], GenerateFeatures(s)[j])
  {
    var p := s[..k];
    assert Sorted(p);
    SortByTimeOfSorted(s);
    SortByTimeOfSorted(p);
    var rp, rf := Annotate(p), Annotate(s);
    forall i | 0 <= i < k ensures SameRawFeatures(rp[i], rf[..k][i]) {
      AnnotatePrefix(s, k, i);
    }
    DropNaIgnoresTarget(rp, rf[..k]);
    DropNaPrefix(rf, k);
    assert GenerateFeatures(p) == DropNa(rp);
    assert GenerateFeatures(s) == DropNa(rf);
    forall j | 0 <= j < |DropNa(rp)| ensures SameFeatures(DropNa(rp)[j], DropNa(rf)[j]) {
      assert DropNa(rf[..k])[j] == DropNa(rf)[j];
    }
  }

  /** Fewer than 20 candles give no row at all; N candles give at most N - 19. */
  lemma AtMostOneRowPerFullWindow(df: seq<Candle>)
    ensures |GenerateFeatures(df)| <= if |df| >= FirstFullRow then |df| - FirstFullRow else 0
  {
    var s := SortByTime(df);
    var rows := Annotate(s);
    forall i | 0 <= i < |rows| && Complete(rows[i]) ensures i >= FirstFullRow {
      CompleteIff(s, i);
    }
    KeptBound(rows, FirstFullRow);
  }

  /** The close moves within every 14-delta window ending at position 19 or later. */
  predicate NoFlatWindows(s: seq<Candle>)
  {
    forall i :: FirstFullRow <= i < |s| ==> !FlatWindow(Closes(s), i)
  }

  /** With no flat RSI window from position 19 on, exactly the rows from 19 on are complete. */
  lemma CompletePositions(s: seq<Candle>)
    requires NoFlatWindows(s)
    ensures CompleteExactlyFrom(Annotate(s), FirstFullRow)
  {
    forall i | 0 <= i < |s| ensures Complete(Annotate(s)[i]) <==> i >= FirstFullRow {
      CompleteIff(s, i);
    }
  }

  /** On a sorted table with no flat RSI window from position 19 on, the rows kept are the candles from 19 on. */
  lemma SortedRowCount(s: seq<Candle>)
    requires NoFlatWindows(s)
    ensures HoldsSuffix(DropNa(Annotate(s)), s, FirstFullRow)
  {
    CompletePositions(s);
    AnnotateCarriesCandles(s);
    SuffixKept(Annotate(s), s, FirstFullRow);
  }

  /**
   * When no 14-delta window from position 19 on is flat, N candles give
   * exactly max(0, N - 19) rows: the sorted candles from position 19 on.
   */
  lemma RowCount(df: seq<Candle>)
    requires NoFlatWindows(SortByTime(df))
    ensures |GenerateFeatures(df)| == if |df| >= FirstFullRow then |df| - FirstFullRow else 0
    ensures forall j :: 0 <= j < |GenerateFeatures(df)| ==>
              FirstFullRow + j < |df| && GenerateFeatures(df)[j].candle == SortByTime(df)[FirstFullRow + j]
  {
    var s := SortByTime(df);
    SortedRowCount(s);
    assert GenerateFeatures(df) == DropNa(Annotate(s));
    assert HoldsSuffix(GenerateFeatures(df), s, FirstFullRow);
  }

  /** Output row `j` is the finished form of the `j`-th complete first-pass row. */
  lemma KeptRow(s: seq<Candle>, j: nat)
    requires j < |DropNa(Annotate(s))|
    ensures var i := KeptIndices(Annotate(s))[j];
      && i < |s|
      && Complete(Annotate(s)[i])
      && DropNa(Annotate(s))[j] == Finish(Annotate(s)[i])
  {
  }

  /** A complete row sits at position 19 or later and carries the mean of the last 20 closes. */
  lemma CompleteRowSma(s: seq<Candle>, i: nat)
    requires i < |s| && Complete(Annotate(s)[i])
    ensures var c := Closes(s);
      && FirstFullRow <= i
      && Finish(Annotate(s)[i]).sma20 == Mean(c[i + 1 - SmaWindow..i + 1])
  {
    AnnotateAt(s, i);
    SmaAt(Closes(s), i);
  }

  /** A complete row's return columns are the close ratios at its position and the three before. */
  lemma CompleteRowReturns(s: seq<Candle>, i: nat)
    requires i < |s| && Complete(Annotate(s)[i])
    ensures var c := Closes(s);
      var row := Finish(Annotate(s)[i]);
      && 4 <= i
      && row.stepReturn == c[i] as real / c[i - 1] as real - 1.0
      && row.lagReturns1 == c[i - 1] as real / c[i - 2] as real - 1.0
      && row.lagReturns2 == c[i - 2] as real / c[i - 3] as real - 1.0
      && row.lagReturns3 == c[i - 3] as real / c[i - 4] as real - 1.0
  {
    var c := Closes(s);
    AnnotateAt(s, i);
    ReturnsAt(c, i);
    LagAt(c, 1, i);
    LagAt(c, 2, i);
    LagAt(c, 3, i);
  }

  /** A row's label is 1 exactly when the close five rows later exists and is higher. */
  lemma RowTarget(s: seq<Candle>, i: nat)
    requires i < |s|
    ensures var c := Closes(s);
      var t := Annotate(s)[i].target;
      && (t == 0 || t == 1)
      && (t == 1 <==> i + Horizon < |c| && c[i + Horizon] > c[i])
  {
    AnnotateAt(s, i);
    TargetAt(Closes(s), i);
  }

  /** A complete row's RSI is the reference RSI of its position. */
  lemma CompleteRowRsi(s: seq<Candle>, i: nat)
    requires i < |s| && Complete(Annotate(s)[i])
    ensures RsiReference(Closes(s), i) == Some(Finish(Annotate(s)[i]).rsi)
  {
    AnnotateAt(s, i);
    RsiMatchesReference(Closes(s), i);
  }

  /**
   * The values an output row at sorted position `i` must hold, from the
   * closes alone: the mean of the last 20 closes, the simple-mean RSI, the close
   * ratios at `i` and at the three positions before, and the 0/1 label
   * saying whether the close five positions later exists and is higher.
   */
  predicate MatchesReference(c: seq<Price>, i: nat, row: FeatureRow)
  {
    && FirstFullRow <= i < |c|
    && row.sma20 == Mean(c[i + 1 - SmaWindow..i + 1])
    && RsiReference(c, i) == Some(row.rsi)
    && row.stepReturn == c[i] as real / c[i - 1] as real - 1.0
    && row.lagReturns1 == c[i - 1] as real / c[i - 2] as real - 1.0
    && row.lagReturns2 == c[i - 2] as real / c[i - 3] as real - 1.0
    && row.lagReturns3 == c[i - 3] as real / c[i - 4] as real - 1.0
    && (row.target == 0 || row.target == 1)
    && (row.target == 1 <==> i + Horizon < |c| && c[i + Horizon] > c[i])
  }

  /** Every complete first-pass row, once unwrapped, holds its reference values. */
  lemma CompleteRowMatches(s: seq<Candle>, i: nat)
    requires i < |s| && Complete(Annotate(s)[i])
    ensures MatchesReference(Closes(s), i, Finish(Annotate(s)[i]))
  {
    CompleteRowSma(s, i);
    CompleteRowRsi(s, i);
    CompleteRowReturns(s, i);
    RowTarget(s, i);
  }

  /**
   * What a surviving row holds: output row `j` is the candle at some sorted
   * position `i >= 19`, and every column has its reference value there.
   */
  lemma SurvivingRowValues(df: seq<Candle>, j: nat)
    requires j < |GenerateFeatures(df)|
    ensures var s := SortByTime(df);
      var i := KeptIndices(Annotate(s))[j];
      && i < |s|
      && GenerateFeatures(df)[j].candle == s[i]
      && MatchesReference(Closes(s), i, GenerateFeatures(df)[j])
  {
    var s := SortByTime(df);
    assert GenerateFeatures(df) == DropNa(Annotate(s));
    KeptRow(s, j);
    CompleteRowMatches(s, KeptIndices(Annotate(s))[j]);
  }

  /** Conversely, every sorted position from 19 on whose RSI window is not flat is kept. */
  lemma NonFlatRowKept(df: seq<Candle>, i: nat)
    requires var s := SortByTime(df);
             FirstFullRow <= i < |s| && !FlatWindow(Closes(s), i)
    ensures i in KeptIndices(Annotate(SortByTime(df)))
  {
    var s := SortByTime(df);
    CompleteIff(s, i);
    CompleteRowsKept(Annotate(s), i);
  }

  /** The rows' `event_time` values never decrease. */
  predicate AscendingTimes(out: seq<FeatureRow>)
  {
    forall j, j' :: 0 <= j < j' < |out| ==> KeyLe(out[j].candle.eventTime, out[j'].candle.eventTime)
  }

  /** No two rows share an `event_time`. */
  predicate DistinctTimes(out: seq<FeatureRow>)
  {
    forall j, j' :: 0 <= j < j' < |out| ==> out[j].candle.eventTime != out[j'].candle.eventTime
  }

  /** Filtering rows that carry a sorted table's candles keeps them in ascending order. */
  lemma KeptCandlesAscending(rows: seq<RawRow>, s: seq<Candle>)
    requires CarriesCandles(rows, s)
    requires Sorted(s)
    ensures AscendingTimes(DropNa(rows))
    ensures DistinctKeys(s) ==> DistinctTimes(DropNa(rows))
  {
  }

  /**
   * The output rows come in ascending `event_time` order; with distinct
   * timestamps no two output rows share one.
   */
  lemma OutputAscending(df: seq<Candle>)
    ensures AscendingTimes(GenerateFeatures(df))
    ensures DistinctKeys(df) ==> DistinctTimes(GenerateFeatures(df))
  {
    var s := SortByTime(df);
    assert GenerateFeatures(df) == DropNa(Annotate(s));
    AnnotateCarriesCandles(s);
    KeptCandlesAscending(Annotate(s), s);
    if DistinctKeys(df) {
      DistinctKeysPermutation(df, s);
    }
  }

  /**
   * With distinct timestamps, the rows do not depend on how the sort orders
   * the candles: any ascending arrangement of them gives the same output.
   */
  lemma AnySortedArrangementGivesSameRows(df: seq<Candle>, s: seq<Candle>)
    requires DistinctKeys(df)
    requires Sorted(s) && multiset(s) == multiset(df)
    ensures DropNa(Annotate(s)) == GenerateFeatures(df)
  {
    AnySortedArrangementIsSortByTime(df, s);
  }

  /** Filtering two blocks of rows one after the other is filtering them together. */
  lemma {:induction false} DropNaAppend(a: seq<RawRow>, b: seq<RawRow>)
    ensures DropNa(a + b) == DropNa(a) + DropNa(b)
  {
    if b == [] {
      assert a + b == a;
    } else {
      var n := |b| - 1;
      DropNaAppend(a, b[..n]);
      assert (a + b)[..|a + b| - 1] == a + b[..n];
      assert (a + b)[|a + b| - 1] == b[n];
    }
  }

  /** Rows none of which is complete are all dropped. */
  lemma {:induction false} NoneCompleteDropped(rows: seq<RawRow>)
    requires forall i :: 0 <= i < |rows| ==> !Complete(rows[i])
    ensures DropNa(rows) == []
  {
    if rows != [] {
      var n := |rows| - 1;
      assert forall i :: 0 <= i < n ==> rows[..n][i] == rows[i];
      NoneCompleteDropped(rows[..n]);
    }
  }

  /** Every row of the first pass before position 19 is dropped. */
  lemma WarmUpDropped(s: seq<Candle>)
    ensures |s| < FirstFullRow ==> DropNa(Annotate(s)) == []
    ensures |s| >= FirstFullRow ==> DropNa(Annotate(s)) == DropNa(Annotate(s)[FirstFullRow..])
  {
    var rows := Annotate(s);
    var m := if |s| < FirstFullRow then |s| else FirstFullRow;
    forall i | 0 <= i < m ensures !Complete(rows[..m][i]) {
      CompleteIff(s, i);
    }
    NoneCompleteDropped(rows[..m]);
    assert rows == rows[..m] + rows[m..];
    DropNaAppend(rows[..m], rows[m..]);
  }

  /** Row `i >= 19` of the first pass over a later slice is row `p + i` of the whole. */
  lemma AnnotateSuffix(s: seq<Candle>, p: nat, i: nat)
    requires p <= |s| && FirstFullRow <= i < |s| - p
    ensures Annotate(s[p..])[i] == Annotate(s)[p + i]
  {
    var c := Closes(s);
    assert Closes(s[p..]) == c[p..];
    AnnotateAt(s[p..], i);
    AnnotateAt(s, p + i);
    SmaSuffix(c, p, i);
    RsiSuffix(c, p, i);
    ReturnsSuffix(c, p, i);
    LagSuffix(c, p, 1, i);
    LagSuffix(c, p, 2, i);
    LagSuffix(c, p, 3, i);
    TargetSuffix(c, p, i);
  }

  /** Two row sequences that agree from `m` on, the second shifted by `p`, have equal tails. */
  lemma ShiftedTailsEqual(a: seq<RawRow>, b: seq<RawRow>, m: nat, p: nat)
    requires m <= |a| && |b| == p + |a|
    requires forall i :: m <= i < |a| ==> a[i] == b[p + i]
    ensures a[m..] == b[p + m..]
  {
    forall j | 0 <= j < |a| - m ensures a[m..][j] == b[p + m..][j] {
      assert a[m..][j] == a[m + j] && b[p + m..][j] == b[p + (m + j)];
    }
  }

  /** From position 19 on, the first pass over a later slice is the whole's from `p + 19` on. */
  lemma AnnotatedTail(s: seq<Candle>, p: nat)
    requires p + FirstFullRow <= |s|
    ensures Annotate(s[p..])[FirstFullRow..] == Annotate(s)[p + FirstFullRow..]
  {
    var a, b := Annotate(s[p..]), Annotate(s);
    forall i | FirstFullRow <= i < |a| ensures a[i] == b[p + i] {
      AnnotateSuffix(s, p, i);
    }
    ShiftedTailsEqual(a, b, FirstFullRow, p);
  }

  /** `a` is a tail of `b`: the last `|a|` rows of `b`. */
  predicate IsTailOf(a: seq<FeatureRow>, b: seq<FeatureRow>)
  {
    |a| <= |b| && a == b[|b| - |a|..]
  }

  /** Filtering a tail of the rows gives a tail of the filtered rows. */
  lemma FilteredTail(rows: seq<RawRow>, q: nat)
    requires q <= |rows|
    ensures IsTailOf(DropNa(rows[q..]), DropNa(rows))
  {
    assert rows == rows[..q] + rows[q..];
    DropNaAppend(rows[..q], rows[q..]);
  }

  /** Both passes over a later slice `s[p..]` keep exactly the whole's rows from `p + 19` on. */
  lemma SuffixRows(s: seq<Candle>, p: nat)
    requires p <= |s|
    ensures p + FirstFullRow <= |s| ==> DropNa(Annotate(s[p..])) == DropNa(Annotate(s)[p + FirstFullRow..])
    ensures p + FirstFullRow > |s| ==> DropNa(Annotate(s[p..])) == []
    ensures IsTailOf(DropNa(Annotate(s[p..])), DropNa(Annotate(s)))
  {
    WarmUpDropped(s[p..]);
    if p + FirstFullRow <= |s| {
      AnnotatedTail(s, p);
      FilteredTail(Annotate(s), p + FirstFullRow);
    }
  }

  /**
   * A run on the later candles `s[p..]` of a sorted table (inference's newest
   * 100 candles within training's newest 5000) returns exactly the whole
   * run's rows from sorted position `p + 19` on, every column alike, `target`
   * included: its rows are the last rows of the whole run.
   */
  lemma SuffixConsistency(s: seq<Candle>, p: nat)
    requires Sorted(s) && p <= |s|
    ensures p + FirstFullRow <= |s| ==> GenerateFeatures(s[p..]) == DropNa(Annotate(s)[p + FirstFullRow..])
    ensures p + FirstFullRow > |s| ==> GenerateFeatures(s[p..]) == []
    ensures IsTailOf(GenerateFeatures(s[p..]), GenerateFeatures(s))
  {
    assert Sorted(s[p..]);
    SortByTimeOfSorted(s[p..]);
    SortByTimeOfSorted(s);
    SuffixRows(s, p);
  }
}
