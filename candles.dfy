/**
 * Candles as the store hands them to the feature builder, the order in which
 * `sort_values('event_time')` puts them, and the sort itself.
 *
 * `event_time` reaches pandas as an ISO-8601 string (it is written with
 * `strftime('%Y-%m-%dT%H:%M:%S%z')` and read back from the store as text), so
 * the sort compares strings: code point by code point, a proper prefix first.
 */
module Candles {

  /** A price; the candle data model requires every price to be positive. */
  type Price = r: real | r > 0.0 witness 1.0

  /** One row of the candle table. */
  datatype Candle = Candle(
    id: int,
    pairName: string,
    eventTime: string,
    openPrice: real,
    highPrice: real,
    lowPrice: real,
    closePrice: Price,
    volume: int)

  /**
   * Lexicographic order on strings, the order Python uses for `str`: the
   * first differing code point decides, and a prefix sorts first.
   */
  predicate KeyLe(a: string, b: string)
  {
    |a| == 0 || (|b| > 0 && (a[0] < b[0] || (a[0] == b[0] && KeyLe(a[1..], b[1..]))))
  }

  /** A string sorts no later than any string it is a prefix of. */
  lemma {:induction false} KeyLePrefixFirst(a: string, b: string)
    requires a <= b
    ensures KeyLe(a, b)
  {
    if |a| > 0 {
      assert a[0] == b[0] && a[1..] <= b[1..];
      KeyLePrefixFirst(a[1..], b[1..]);
    }
  }

  lemma {:induction false} KeyLeReflexive(a: string)
    ensures KeyLe(a, a)
  {
    if |a| > 0 { KeyLeReflexive(a[1..]); }
  }

  lemma {:induction false} KeyLeAntisymmetric(a: string, b: string)
    requires KeyLe(a, b) && KeyLe(b, a)
    ensures a == b
  {
    if |a| > 0 && |b| > 0 {
      KeyLeAntisymmetric(a[1..], b[1..]);
      assert a == [a[0]] + a[1..] && b == [b[0]] + b[1..];
    }
  }

  lemma {:induction false} KeyLeTransitive(a: string, b: string, c: string)
    requires KeyLe(a, b) && KeyLe(b, c)
    ensures KeyLe(a, c)
  {
    if |a| > 0 && |b| > 0 && |c| > 0 && a[0] == b[0] && b[0] == c[0] {
      KeyLeTransitive(a[1..], b[1..], c[1..]);
    }
  }

  lemma {:induction false} KeyLeTotal(a: string, b: string)
    ensures KeyLe(a, b) || KeyLe(b, a)
  {
    if |a| > 0 && |b| > 0 && a[0] == b[0] {
      KeyLeTotal(a[1..], b[1..]);
    }
  }

  /** The candles are in ascending `event_time` order (ties allowed). */
  ghost predicate Sorted(s: seq<Candle>)
  {
    forall i, j :: 0 <= i < j < |s| ==> KeyLe(s[i].eventTime, s[j].eventTime)
  }

  /** No two candles share an `event_time`. */
  ghost predicate DistinctKeys(s: seq<Candle>)
  {
    forall i, j :: 0 <= i < j < |s| ==> s[i].eventTime != s[j].eventTime
  }

  /** A candle keyed no later than every candle of a sorted sequence can go in front of it. */
  lemma SortedCons(y: Candle, t: seq<Candle>)
    requires Sorted(t)
    requires forall k :: 0 <= k < |t| ==> KeyLe(y.eventTime, t[k].eventTime)
    ensures Sorted([y] + t)
  {
    var r := [y] + t;
    forall i, j | 0 <= i < j < |r| ensures KeyLe(r[i].eventTime, r[j].eventTime) {
      if i == 0 {
        assert r[j] == t[j - 1];
      } else {
        assert r[i] == t[i - 1] && r[j] == t[j - 1];
      }
    }
  }

  /** A lower bound of `x` and of every candle of `s` bounds every candle of a permutation of them. */
  lemma LowerBoundOfPermutation(y: Candle, x: Candle, s: seq<Candle>, t: seq<Candle>)
    requires multiset(t) == multiset(s) + multiset{x}
    requires KeyLe(y.eventTime, x.eventTime)
    requires forall k :: 0 <= k < |s| ==> KeyLe(y.eventTime, s[k].eventTime)
    ensures forall k :: 0 <= k < |t| ==> KeyLe(y.eventTime, t[k].eventTime)
  {
    forall k | 0 <= k < |t| ensures KeyLe(y.eventTime, t[k].eventTime) {
      assert t[k] in multiset(t);
      if t[k] != x {
        assert t[k] in multiset(s);
        var m :| 0 <= m < |s| && s[m] == t[k];
      }
    }
  }

  /** Places `x` in front of the first candle whose key is not below it. */
  function Insert(x: Candle, s: seq<Candle>): (r: seq<Candle>)
    requires Sorted(s)
    ensures Sorted(r)
    ensures |r| == |s| + 1
    ensures multiset(r) == multiset(s) + multiset{x}
  {
    if s == [] then [x]
    else if KeyLe(x.eventTime, s[0].eventTime) then
      forall k | 0 <= k < |s| ensures KeyLe(x.eventTime, s[k].eventTime) {
        if k > 0 { KeyLeTransitive(x.eventTime, s[0].eventTime, s[k].eventTime); }
      }
      SortedCons(x, s);
      [x] + s
    else
      var rest := s[1..];
      assert s == [s[0]] + rest;
      var t := Insert(x, rest);
      KeyLeTotal(x.eventTime, s[0].eventTime);
      assert forall k :: 0 <= k < |rest| ==> rest[k] == s[k + 1];
      LowerBoundOfPermutation(s[0], x, rest, t);
      SortedCons(s[0], t);
      [s[0]] + t
  }

  /**
   * `df.sort_values('event_time')`: the candles in ascending `event_time`
   * order, a permutation of the input.
   */
  function SortByTime(s: seq<Candle>): (r: seq<Candle>)
    ensures Sorted(r)
    ensures |r| == |s|
    ensures multiset(r) == multiset(s)
  {
    if s == [] then []
    else
      assert s == [s[0]] + s[1..];
      Insert(s[0], SortByTime(s[1..]))
  }

  /** A candle keyed no later than the first of a sorted sequence is inserted in front. */
  lemma InsertInFront(x: Candle, s: seq<Candle>)
    requires Sorted(s)
    requires s == [] || KeyLe(x.eventTime, s[0].eventTime)
    ensures Insert(x, s) == [x] + s
  {
  }

  /** Sorting a table that is already in order leaves it as it is. */
  lemma {:induction false} SortByTimeOfSorted(s: seq<Candle>)
    requires Sorted(s)
    ensures SortByTime(s) == s
  {
    if s != [] {
      var rest := s[1..];
      assert Sorted(rest);
      SortByTimeOfSorted(rest);
      InsertInFront(s[0], rest);
      assert s == [s[0]] + rest;
    }
  }

  /** Two sorted arrangements of the same candles, one with distinct keys, start alike. */
  lemma SortedPermutationHeads(a: seq<Candle>, b: seq<Candle>)
    requires Sorted(a) && Sorted(b) && DistinctKeys(a)
    requires multiset(a) == multiset(b) && a != []
    ensures b != [] && a[0] == b[0]
  {
    assert a[0] in multiset(a);
    var j :| 0 <= j < |b| && b[j] == a[0];
    assert b[0] in multiset(b);
    var k :| 0 <= k < |a| && a[k] == b[0];
    var ka, kb := a[0].eventTime, b[0].eventTime;
    assert KeyLe(ka, kb) by {
      if k == 0 { KeyLeReflexive(ka); }
    }
    assert KeyLe(kb, ka) by {
      if j == 0 { KeyLeReflexive(kb); }
    }
    KeyLeAntisymmetric(ka, kb);
  }

  /** Removing the same first candle from two permutations of each other leaves permutations. */
  lemma TailsPermutation(a: seq<Candle>, b: seq<Candle>)
    requires a != [] && b != [] && a[0] == b[0]
    requires multiset(a) == multiset(b)
    ensures multiset(a[1..]) == multiset(b[1..])
  {
    assert a == [a[0]] + a[1..] && b == [b[0]] + b[1..];
    assert multiset(a) == multiset([a[0]]) + multiset(a[1..]);
    assert multiset(b) == multiset([a[0]]) + multiset(b[1..]);
    assert multiset(a[1..]) == multiset(a) - multiset([a[0]]);
    assert multiset(b[1..]) == multiset(b) - multiset([a[0]]);
  }

  /**
   * With distinct keys there is exactly one ascending arrangement: any two
   * sorted permutations of the same candles are equal. So an unstable sort
   * and this one agree whenever `event_time` is unique.
   */
  lemma {:induction false} SortedPermutationUnique(a: seq<Candle>, b: seq<Candle>)
    requires Sorted(a) && Sorted(b) && DistinctKeys(a)
    requires multiset(a) == multiset(b)
    ensures a == b
  {
    if a == [] {
      assert |multiset(b)| == 0;
    } else {
      SortedPermutationHeads(a, b);
      TailsPermutation(a, b);
      var a', b' := a[1..], b[1..];
      assert Sorted(a') && Sorted(b') && DistinctKeys(a');
      SortedPermutationUnique(a', b');
      assert a == [a[0]] + a' && b == [b[0]] + b';
    }
  }

  /** A candle that occurs twice in a sequence occurs at two positions. */
  lemma {:induction false} TwiceAtTwoPositions(s: seq<Candle>, x: Candle)
    requires multiset(s)[x] >= 2
    ensures exists p, q :: 0 <= p < q < |s| && s[p] == x && s[q] == x
  {
    assert s == [s[0]] + s[1..];
    if s[0] == x {
      assert x in multiset(s[1..]);
      var q :| 0 <= q < |s[1..]| && s[1..][q] == x;
      assert s[q + 1] == x;
    } else {
      TwiceAtTwoPositions(s[1..], x);
      var p, q :| 0 <= p < q < |s[1..]| && s[1..][p] == x && s[1..][q] == x;
      assert s[p + 1] == x && s[q + 1] == x;
    }
  }

  /** Distinct keys are a property of the multiset of candles, not of their order. */
  lemma DistinctKeysPermutation(a: seq<Candle>, b: seq<Candle>)
    requires DistinctKeys(a)
    requires multiset(a) == multiset(b)
    ensures DistinctKeys(b)
  {
    forall i, j | 0 <= i < j < |b| ensures b[i].eventTime != b[j].eventTime {
      if b[i] == b[j] {
        assert multiset(b)[b[i]] >= 2 by {
          assert b == b[..i] + [b[i]] + b[i + 1..j] + [b[j]] + b[j + 1..];
        }
        TwiceAtTwoPositions(a, b[i]);
      } else {
        assert b[i] in multiset(a) && b[j] in multiset(a);
      }
    }
  }

  /** Every sorted arrangement of a table with distinct keys is the one `SortByTime` builds. */
  lemma AnySortedArrangementIsSortByTime(input: seq<Candle>, s: seq<Candle>)
    requires DistinctKeys(input)
    requires Sorted(s) && multiset(s) == multiset(input)
    ensures SortByTime(input) == s
  {
    DistinctKeysPermutation(input, s);
    SortedPermutationUnique(s, SortByTime(input));
  }
}
