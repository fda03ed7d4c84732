/**
  The collector's last two steps: `get_sorted_volatility_results`, a stable
  sort of the table by volatility, highest first; and `get_statistic`, which
  fills the "highest", "lowest" and "zero" buckets of the report.
*/
module Ranking {
  import opened Entries
  import opened Sorting
  import opened Text
  import opened ResultTable

  // ---------------------------------------------------------------------
  // The ranked list

  /** The table's (ticker, volatility) pairs sorted in place by volatility, highest first. */
  function Rank(t: Table): (r: seq<Entry>)
    ensures multiset(r) == multiset(t)
    ensures |r| == |t|
  {
    SortBy(t, AtLeastAsVolatile)
  }

  lemma VolatilityOrderIsPreorder()
    ensures TotalPreorder(AtLeastAsVolatile)
  {
  }

  lemma LexOrderIsPreorder()
    ensures TotalPreorder(LexLe)
  {
    forall a, b
      ensures LexLe(a, b) || LexLe(b, a)
    {
      LexLeTotal(a, b);
    }
    forall a, b, c | LexLe(a, b) && LexLe(b, c)
      ensures LexLe(a, c)
    {
      LexLeTransitive(a, b, c);
    }
  }

  /** Under the volatility order, two entries are tied exactly when their volatilities are equal. */
  lemma {:induction false} TiesAreEqualVolatility(s: seq<Entry>, v: real)
    ensures TiesOf(s, Entry("", v), AtLeastAsVolatile) == WithVolatility(s, v)
  {
    if |s| > 0 {
      TiesAreEqualVolatility(s[1..], v);
    }
  }

  lemma SortedIsNonIncreasing(s: seq<Entry>)
    requires SortedBy(s, AtLeastAsVolatile)
    ensures NonIncreasing(s)
  {
    forall i, j | 0 <= i < j < |s|
      ensures s[i].volatility >= s[j].volatility
    {
      assert AtLeastAsVolatile(s[i], s[j]);
    }
  }

  /** The ranked list is the table's entries, highest volatility first, with entries of equal
      volatility kept in table order. */
  lemma RankOrdersTable(t: Table)
    ensures multiset(Rank(t)) == multiset(t)
    ensures NonIncreasing(Rank(t))
    ensures forall v :: WithVolatility(Rank(t), v) == WithVolatility(t, v)
  {
    VolatilityOrderIsPreorder();
    SortByIsSorted(t, AtLeastAsVolatile);
    SortedIsNonIncreasing(Rank(t));
    forall v
      ensures WithVolatility(Rank(t), v) == WithVolatility(t, v)
    {
      SortByIsStable(t, Entry("", v), AtLeastAsVolatile);
      TiesAreEqualVolatility(t, v);
      TiesAreEqualVolatility(Rank(t), v);
    }
  }

  /** Ranking is idempotent: ranking a ranked list changes nothing. */
  lemma RankIsIdempotent(t: Table)
    ensures Rank(Rank(t)) == Rank(t)
  {
    VolatilityOrderIsPreorder();
    SortByIsSorted(t, AtLeastAsVolatile);
    SortByOfSorted(Rank(t), AtLeastAsVolatile);
  }

  // ---------------------------------------------------------------------
  // Reference functions for the tail scan

  function Reverse<T>(s: seq<T>): (r: seq<T>)
    ensures |r| == |s|
  {
    if |s| == 0 then [] else [s[|s| - 1]] + Reverse(s[..|s| - 1])
  }

  lemma {:induction false} ReversePreservesMultiset<T>(s: seq<T>)
    ensures multiset(Reverse(s)) == multiset(s)
  {
    if |s| > 0 {
      var prefix, last := s[..|s| - 1], s[|s| - 1];
      ReversePreservesMultiset(prefix);
      assert Reverse(s) == [last] + Reverse(prefix);
      assert s == prefix + [last];
      assert multiset(s) == multiset(prefix) + multiset{last};
    }
  }

  /** The last k elements of s (all of s when it is shorter). */
  function LastN<T>(s: seq<T>, k: int): (r: seq<T>)
    ensures |r| <= |s| && (k <= 0 ==> |r| == 0)
    ensures 0 <= k <= |s| ==> |r| == k
  {
    if k <= 0 then [] else if k >= |s| then s else s[|s| - k..]
  }

  lemma LastNAppend<T>(s: seq<T>, x: T, k: int)
    requires k >= 1
    ensures LastN(s + [x], k) == LastN(s, k - 1) + [x]
  {
    if k - 1 < |s| {
      assert (s + [x])[|s| + 1 - k..] == s[|s| - (k - 1)..] + [x];
    }
  }

  /** The entries with positive volatility, in order. */
  function Positives(w: seq<Entry>): (r: seq<Entry>)
    ensures |r| <= |w|
    ensures forall i :: 0 <= i < |r| ==> r[i].volatility > 0.0 && r[i] in w
  {
    if |w| == 0 then []
    else
      var e := w[|w| - 1];
      var prior := Positives(w[..|w| - 1]);
      if e.volatility > 0.0 then prior + [e] else prior
  }

  /** The tickers of the entries with volatility exactly 0, in order. */
  function ZeroNames(w: seq<Entry>): (r: seq<string>)
    ensures |r| <= |w|
    ensures forall i :: 0 <= i < |r| ==> r[i] in TickersOf(w)
  {
    if |w| == 0 then []
    else
      var e := w[|w| - 1];
      var prior := ZeroNames(w[..|w| - 1]);
      assert forall i :: 0 <= i < |prior| ==> prior[i] in TickersOf(w) by {
        assert TickersOf(w[..|w| - 1]) == TickersOf(w)[..|w| - 1];
      }
      assert e.ticker == TickersOf(w)[|w| - 1];
      if e.volatility == 0.0 then prior + [e.ticker] else prior
  }

  lemma {:induction false} ZeroNamesHasEveryZero(w: seq<Entry>, i: nat)
    requires i < |w| && w[i].volatility == 0.0
    ensures w[i].ticker in ZeroNames(w)
  {
    var n := |w| - 1;
    if i < n {
      assert w[..n][i] == w[i];
      ZeroNamesHasEveryZero(w[..n], i);
    }
  }

  // ---------------------------------------------------------------------
  // The buckets

  datatype Buckets = Buckets(highest: seq<Entry>, lowest: seq<Entry>, zero: seq<string>)

  /** What the backwards loop collects, before the final sorts. */
  datatype TailFinds = TailFinds(lowest: seq<Entry>, zero: seq<string>)

  /** The `for _index in range(..., -1)` loop over w from its end: a positive entry goes to
      "lowest" and uses up one of `count`, a zero entry goes to "zero", a negative one is
      passed over, and the loop breaks once `count` is used up. */
  function TailScan(w: seq<Entry>, count: int): (r: TailFinds)
    ensures |r.lowest| <= |w|
    ensures forall i :: 0 <= i < |r.lowest| ==> r.lowest[i].volatility > 0.0 && r.lowest[i] in w
  {
    if |w| == 0 || count <= 0 then TailFinds([], [])
    else
      var e := w[|w| - 1];
      var rest := w[..|w| - 1];
      if e.volatility > 0.0 then
        var r := TailScan(rest, count - 1);
        TailFinds([e] + r.lowest, r.zero)
      else if e.volatility == 0.0 then
        var r := TailScan(rest, count);
        TailFinds(r.lowest, [e.ticker] + r.zero)
      else TailScan(rest, count)
  }

  /** "lowest" holds the last `count` positive entries of w, met from the end backwards. */
  predicate LowestAreLastPositives(w: seq<Entry>, count: int) {
    TailScan(w, count).lowest == Reverse(LastN(Positives(w), count))
  }

  lemma {:induction false} TailScanLowest(w: seq<Entry>, count: int)
    ensures LowestAreLastPositives(w, count)
  {
    if |w| > 0 && count > 0 {
      var rest := w[..|w| - 1];
      if w[|w| - 1].volatility > 0.0 {
        TailScanLowest(rest, count - 1);
        PositiveLastStep(w, count);
      } else {
        TailScanLowest(rest, count);
        OtherLastStep(w, count);
      }
    }
  }

  lemma PositiveLastStep(w: seq<Entry>, count: int)
    requires |w| > 0 && count > 0 && w[|w| - 1].volatility > 0.0
    requires LowestAreLastPositives(w[..|w| - 1], count - 1)
    ensures LowestAreLastPositives(w, count)
  {
    var e, rest := w[|w| - 1], w[..|w| - 1];
    var x := LastN(Positives(rest), count - 1);
    assert TailScan(w, count).lowest == [e] + Reverse(x);
    assert Positives(w) == Positives(rest) + [e];
    LastNAppend(Positives(rest), e, count);
    ReverseSnoc(x, e);
  }

  lemma OtherLastStep(w: seq<Entry>, count: int)
    requires |w| > 0 && count > 0 && w[|w| - 1].volatility <= 0.0
    requires LowestAreLastPositives(w[..|w| - 1], count)
    ensures LowestAreLastPositives(w, count)
  {
    assert TailScan(w, count).lowest == TailScan(w[..|w| - 1], count).lowest;
    assert Positives(w) == Positives(w[..|w| - 1]);
  }

  lemma ReverseSnoc<T>(s: seq<T>, x: T)
    ensures Reverse(s + [x]) == [x] + Reverse(s)
  {
    assert (s + [x])[..|s|] == s;
  }

  lemma {:induction false} PositiveScanFindsNoZero(w: seq<Entry>, count: int)
    requires forall i :: 0 <= i < |w| ==> w[i].volatility > 0.0
    ensures TailScan(w, count).zero == [] && ZeroNames(w) == []
  {
    if |w| > 0 {
      PositiveScanFindsNoZero(w[..|w| - 1], count);
      PositiveScanFindsNoZero(w[..|w| - 1], count - 1);
    }
  }

  /** On a ranked list, zeros sit after every positive entry, so the scan meets all of them
      before it can run out of `count`: "zero" gathers every zero entry. */
  lemma {:induction false} TailScanZero(w: seq<Entry>, count: int)
    requires count > 0
    requires NonIncreasing(w)
    ensures TailScan(w, count).zero == Reverse(ZeroNames(w))
  {
    if |w| > 0 {
      var e := w[|w| - 1];
      var rest := w[..|w| - 1];
      assert NonIncreasing(rest);
      if e.volatility > 0.0 {
        assert forall i :: 0 <= i < |w| ==> w[i].volatility > 0.0;
        PositiveScanFindsNoZero(w, count);
      } else {
        TailScanZero(rest, count);
        if e.volatility == 0.0 {
          var x := ZeroNames(rest);
          assert (x + [e.ticker])[..|x|] == x;
        }
      }
    }
  }

  /** The indices `range(len(s) - 1, 0, -1)` visits: every entry but the first. */
  function Scanned(s: seq<Entry>): seq<Entry> {
    if |s| == 0 then [] else s[1..]
  }

  /** Bucketing of a ranked list s with bucket size n, the tail scan walking over `scanned`. */
  function BucketsOver(s: seq<Entry>, n: int, scanned: seq<Entry>): Buckets {
    if |s| > 3 * n then
      var found := TailScan(scanned, n);
      Buckets(if n <= 0 then [] else s[..n],
              SortBy(found.lowest, AtLeastAsVolatile),
              SortBy(found.zero, LexLe))
    else Buckets([], [], [])
  }

  /** `get_statistic` as written. */
  function Statistic(s: seq<Entry>, n: int): Buckets {
    BucketsOver(s, n, Scanned(s))
  }

  /** `get_statistic` with the tail scan reaching index 0 as well. */
  function StatisticCorrected(s: seq<Entry>, n: int): Buckets {
    BucketsOver(s, n, s)
  }

  /** What every bucketing promises, whichever part of the list its scan covers. */
  lemma BucketsOverShape(s: seq<Entry>, n: int, scanned: seq<Entry>)
    ensures var b := BucketsOver(s, n, scanned);
            && (|s| <= 3 * n ==> b == Buckets([], [], []))
            && (|s| > 3 * n ==>
                  && b.highest == s[..if n <= 0 then 0 else n]
                  && NonIncreasing(b.lowest)
                  && multiset(b.lowest) == multiset(LastN(Positives(scanned), n))
                  && (forall v :: WithVolatility(b.lowest, v) == WithVolatility(Reverse(LastN(Positives(scanned), n)), v))
                  && |b.lowest| <= (if n <= 0 then 0 else n)
                  && (forall e :: e in b.lowest ==> e.volatility > 0.0)
                  && SortedBy(b.zero, LexLe)
                  && multiset(b.zero) == multiset(TailScan(scanned, n).zero)
                  && (n > 0 && NonIncreasing(scanned) ==> multiset(b.zero) == multiset(ZeroNames(scanned))))
  {
    if |s| > 3 * n {
      var found := TailScan(scanned, n);
      var b := BucketsOver(s, n, scanned);
      VolatilityOrderIsPreorder();
      LexOrderIsPreorder();
      SortByIsSorted(found.lowest, AtLeastAsVolatile);
      SortedIsNonIncreasing(b.lowest);
      SortByIsSorted(found.zero, LexLe);
      TailScanLowest(scanned, n);
      RankOrdersTable(found.lowest);
      ReversePreservesMultiset(LastN(Positives(scanned), n));
      forall e | e in b.lowest
        ensures e.volatility > 0.0
      {
        assert e in multiset(b.lowest);
        assert e in LastN(Positives(scanned), n);
      }
      if n > 0 && NonIncreasing(scanned) {
        TailScanZero(scanned, n);
        ReversePreservesMultiset(ZeroNames(scanned));
      }
    }
  }

  lemma ScannedIsNonIncreasing(s: seq<Entry>)
    requires NonIncreasing(s)
    ensures NonIncreasing(Scanned(s))
  {
    if |s| > 0 {
      forall i, j | 0 <= i < j < |s| - 1
        ensures s[1..][i].volatility >= s[1..][j].volatility
      {
        assert s[1..][i] == s[i + 1] && s[1..][j] == s[j + 1];
      }
    }
  }

  /** The buckets `get_statistic` builds: nothing unless the list exceeds 3 * n entries;
      otherwise "highest" is the first n ranked entries, "lowest" holds the last n positive
      entries after the first entry (highest first, equal volatilities in the order met from the end), and on a ranked list "zero" holds, sorted, the tickers of the
      zero-volatility entries other than the first entry. */
  lemma StatisticBuckets(s: seq<Entry>, n: int)
    ensures var b := Statistic(s, n);
            && (|s| <= 3 * n ==> b == Buckets([], [], []))
            && (|s| > 3 * n ==>
                  && b.highest == s[..if n <= 0 then 0 else n]
                  && NonIncreasing(b.lowest)
                  && |b.lowest| <= (if n <= 0 then 0 else n)
                  && (forall e :: e in b.lowest ==> e.volatility > 0.0)
                  && multiset(b.lowest) == multiset(LastN(Positives(Scanned(s)), n))
                  && (forall v :: WithVolatility(b.lowest, v) == WithVolatility(Reverse(LastN(Positives(Scanned(s)), n)), v))
                  && SortedBy(b.zero, LexLe)
                  && (n > 0 && NonIncreasing(s) ==> multiset(b.zero) == multiset(ZeroNames(Scanned(s)))))
  {
    BucketsOverShape(s, n, Scanned(s));
    if NonIncreasing(s) {
      ScannedIsNonIncreasing(s);
    }
  }

  /** The tail scan never reads the first ranked entry: changing it cannot change "lowest" or "zero". */
  lemma FirstEntryNeverScanned(s: seq<Entry>, s': seq<Entry>, n: int)
    requires |s| == |s'| > 0 && s[1..] == s'[1..]
    ensures Statistic(s, n).lowest == Statistic(s', n).lowest
    ensures Statistic(s, n).zero == Statistic(s', n).zero
  {
  }

  /** As written, a zero-volatility first entry is left out of the "zero" bucket
      (for instance when every ticker has volatility 0). */
  lemma ZeroBucketMissesFirstEntry(s: seq<Entry>, n: int)
    requires n > 0 && |s| > 3 * n
    requires NonIncreasing(s) && UniqueTickers(s)
    requires s[0].volatility == 0.0
    ensures s[0].ticker !in Statistic(s, n).zero
  {
    StatisticBuckets(s, n);
    FirstTickerNotRepeated(s);
    var zs := ZeroNames(s[1..]);
    assert s[0].ticker !in zs;
    assert multiset(Statistic(s, n).zero) == multiset(zs);
    assert s[0].ticker !in multiset(Statistic(s, n).zero);
  }

  /** As written, on a ranked list "zero" is sorted by name and holds every zero-volatility
      ticker after the first entry. */
  lemma ScannedZeroBucket(s: seq<Entry>, n: int)
    requires n > 0 && |s| > 3 * n
    requires NonIncreasing(s)
    ensures SortedBy(Statistic(s, n).zero, LexLe)
    ensures multiset(Statistic(s, n).zero) == multiset(ZeroNames(Scanned(s)))
    ensures forall i :: 1 <= i < |s| && s[i].volatility == 0.0 ==> s[i].ticker in Statistic(s, n).zero
  {
    StatisticBuckets(s, n);
    ZeroNamesAfterFirst(s, Statistic(s, n).zero);
  }

  lemma ZeroNamesAfterFirst(s: seq<Entry>, names: seq<string>)
    requires multiset(names) == multiset(ZeroNames(Scanned(s)))
    ensures forall i :: 1 <= i < |s| && s[i].volatility == 0.0 ==> s[i].ticker in names
  {
    forall i | 1 <= i < |s| && s[i].volatility == 0.0
      ensures s[i].ticker in names
    {
      assert Scanned(s)[i - 1] == s[i];
      ZeroNamesHasEveryZero(Scanned(s), i - 1);
      assert s[i].ticker in multiset(ZeroNames(Scanned(s)));
    }
  }

  /** As written, a positive first entry is left out of "lowest" as well: when every later entry
      has volatility 0 or less, "lowest" stays empty although the list holds a positive entry. */
  lemma LowestBucketMissesFirstEntry(s: seq<Entry>, n: int)
    requires n > 0 && |s| > 3 * n
    requires s[0].volatility > 0.0
    requires forall i :: 1 <= i < |s| ==> s[i].volatility <= 0.0
    ensures Statistic(s, n).lowest == []
  {
    StatisticBuckets(s, n);
    NoPositives(Scanned(s));
  }

  lemma {:induction false} NoPositives(w: seq<Entry>)
    requires forall i :: 0 <= i < |w| ==> w[i].volatility <= 0.0
    ensures Positives(w) == []
  {
    if |w| > 0 {
      NoPositives(w[..|w| - 1]);
    }
  }

  lemma {:induction false} PositivesHasEveryPositive(w: seq<Entry>, i: nat)
    requires i < |w| && w[i].volatility > 0.0
    ensures w[i] in Positives(w)
  {
    var n := |w| - 1;
    if i < n {
      assert w[..n][i] == w[i];
      PositivesHasEveryPositive(w[..n], i);
    }
  }

  /** With the scan reaching index 0, a list with at most n positive entries has every one of
      them in "lowest", the first entry included. */
  lemma CorrectedLowestBucketIsComplete(s: seq<Entry>, n: int)
    requires n > 0 && |s| > 3 * n
    requires |Positives(s)| <= n
    ensures forall i :: 0 <= i < |s| && s[i].volatility > 0.0 ==> s[i] in StatisticCorrected(s, n).lowest
  {
    BucketsOverShape(s, n, s);
    assert LastN(Positives(s), n) == Positives(s);
    forall i | 0 <= i < |s| && s[i].volatility > 0.0
      ensures s[i] in StatisticCorrected(s, n).lowest
    {
      PositivesHasEveryPositive(s, i);
      assert s[i] in multiset(Positives(s));
    }
  }

  lemma FirstTickerNotRepeated(s: seq<Entry>)
    requires |s| > 0 && UniqueTickers(s)
    ensures s[0].ticker !in TickersOf(s[1..])
  {
  }

  /** With the scan reaching index 0, "zero" holds every zero-volatility ticker of the ranked list. */
  lemma CorrectedZeroBucketIsComplete(s: seq<Entry>, n: int)
    requires n > 0 && |s| > 3 * n
    requires NonIncreasing(s)
    ensures multiset(StatisticCorrected(s, n).zero) == multiset(ZeroNames(s))
    ensures forall i :: 0 <= i < |s| && s[i].volatility == 0.0 ==> s[i].ticker in StatisticCorrected(s, n).zero
  {
    BucketsOverShape(s, n, s);
    forall i | 0 <= i < |s| && s[i].volatility == 0.0
      ensures s[i].ticker in StatisticCorrected(s, n).zero
    {
      ZeroNamesHasEveryZero(s, i);
      assert s[i].ticker in multiset(ZeroNames(s));
    }
  }
}
