/**
  The collector's `parsing_results` dictionary (line 195 of the collector
  loop): a table keyed by ticker where a later result for the same ticker
  overwrites the earlier one. Python dictionaries iterate in insertion
  order and an overwrite keeps the key's original position, so the table
  is an insertion-ordered list of entries with distinct tickers.
*/
module ResultTable {
  import opened Wrappers
  import opened Entries

  type Table = seq<Entry>

  /** The tickers a list of entries names. */
  function Keys(t: seq<Entry>): set<string> {
    if |t| == 0 then {} else {t[0].ticker} + Keys(t[1..])
  }

  lemma {:induction false} KeysMembership(t: seq<Entry>, k: string)
    ensures k in Keys(t) <==> exists i :: 0 <= i < |t| && t[i].ticker == k
  {
    if |t| > 0 {
      KeysMembership(t[1..], k);
      if k in Keys(t[1..]) {
        var i :| 0 <= i < |t[1..]| && t[1..][i].ticker == k;
        assert t[i + 1].ticker == k;
      }
      if exists i :: 0 <= i < |t| && t[i].ticker == k {
        var i :| 0 <= i < |t| && t[i].ticker == k;
        if i > 0 {
          assert t[1..][i - 1].ticker == k;
        }
      }
    }
  }

  lemma {:induction false} KeysAppend(t: seq<Entry>, e: Entry)
    ensures Keys(t + [e]) == Keys(t) + {e.ticker}
  {
    if |t| > 0 {
      assert (t + [e])[1..] == t[1..] + [e];
      KeysAppend(t[1..], e);
    } else {
      assert t + [e] == [e];
    }
  }

  /** A list names as many tickers as it has entries exactly when no ticker repeats. */
  lemma {:induction false} KeysSize(t: seq<Entry>)
    ensures |Keys(t)| <= |t|
    ensures |Keys(t)| == |t| <==> UniqueTickers(t)
  {
    if |t| > 0 {
      KeysSize(t[1..]);
      KeysMembership(t[1..], t[0].ticker);
      if t[0].ticker in Keys(t[1..]) {
        var i :| 0 <= i < |t[1..]| && t[1..][i].ticker == t[0].ticker;
        assert t[i + 1].ticker == t[0].ticker;
      } else if UniqueTickers(t[1..]) {
        forall i, j | 0 <= i < j < |t|
          ensures t[i].ticker != t[j].ticker
        {
          if i > 0 {
            assert t[i] == t[1..][i - 1] && t[j] == t[1..][j - 1];
          } else {
            assert t[1..][j - 1].ticker == t[j].ticker;
          }
        }
      } else {
        var i, j :| 0 <= i < j < |t[1..]| && t[1..][i].ticker == t[1..][j].ticker;
        assert t[i + 1].ticker == t[j + 1].ticker;
      }
    }
  }

  function Lookup(t: Table, k: string): Option<real> {
    if |t| == 0 then None
    else if t[0].ticker == k then Some(t[0].volatility)
    else Lookup(t[1..], k)
  }

  /** `parsing_results[e.ticker] = e.volatility` */
  function Put(t: Table, e: Entry): (r: Table)
    ensures Lookup(r, e.ticker) == Some(e.volatility)
    ensures forall k :: k != e.ticker ==> Lookup(r, k) == Lookup(t, k)
    ensures Keys(r) == Keys(t) + {e.ticker}
    ensures e.ticker in Keys(t) ==> TickersOf(r) == TickersOf(t)
    ensures e.ticker !in Keys(t) ==> r == t + [e]
  {
    if |t| == 0 then [e]
    else if t[0].ticker == e.ticker then [e] + t[1..]
    else
      var r := [t[0]] + Put(t[1..], e);
      assert r[1..] == Put(t[1..], e);
      assert TickersOf(r) == [t[0].ticker] + TickersOf(Put(t[1..], e));
      assert TickersOf(t) == [t[0].ticker] + TickersOf(t[1..]);
      assert t == [t[0]] + t[1..];
      r
  }

  /** The table after the collector has received the results in this order. */
  function Collect(results: seq<Entry>): (t: Table)
    ensures UniqueTickers(t)
    ensures Keys(t) == Keys(results)
  {
    if |results| == 0 then []
    else
      var n := |results| - 1;
      var prior := Collect(results[..n]);
      var t := Put(prior, results[n]);
      assert results == results[..n] + [results[n]];
      KeysAppend(results[..n], results[n]);
      assert UniqueTickers(t) by {
        if results[n].ticker in Keys(prior) {
          assert TickersOf(t) == TickersOf(prior);
          forall i, j | 0 <= i < j < |t|
            ensures t[i].ticker != t[j].ticker
          {
            assert TickersOf(t)[i] == TickersOf(prior)[i];
            assert TickersOf(t)[j] == TickersOf(prior)[j];
          }
        } else {
          KeysMembership(prior, results[n].ticker);
        }
      }
      t
  }

  /** The volatility of the last result naming k, if any: the meaning of last-write-wins. */
  function LastReported(results: seq<Entry>, k: string): Option<real> {
    if |results| == 0 then None
    else if results[|results| - 1].ticker == k then Some(results[|results| - 1].volatility)
    else LastReported(results[..|results| - 1], k)
  }

  /** Tickers in order of first appearance, which is the dictionary's iteration order. */
  function FirstAppearances(tickers: seq<string>): seq<string> {
    if |tickers| == 0 then []
    else
      var prior := FirstAppearances(tickers[..|tickers| - 1]);
      if tickers[|tickers| - 1] in tickers[..|tickers| - 1] then prior
      else prior + [tickers[|tickers| - 1]]
  }

  /** Every ticker maps to the volatility of its last result; tickers never reported are absent. */
  lemma {:induction false} CollectKeepsLastWrite(results: seq<Entry>, k: string)
    ensures Lookup(Collect(results), k) == LastReported(results, k)
  {
    if |results| > 0 {
      CollectKeepsLastWrite(results[..|results| - 1], k);
    }
  }

  /** The table lists each ticker once, in the order it was first reported. */
  lemma {:induction false} CollectOrder(results: seq<Entry>)
    ensures TickersOf(Collect(results)) == FirstAppearances(TickersOf(results))
  {
    if |results| > 0 {
      CollectOrder(results[..|results| - 1]);
      CollectOrderStep(results);
    }
  }

  lemma CollectOrderStep(results: seq<Entry>)
    requires |results| > 0
    requires TickersOf(Collect(results[..|results| - 1])) == FirstAppearances(TickersOf(results[..|results| - 1]))
    ensures TickersOf(Collect(results)) == FirstAppearances(TickersOf(results))
  {
    var n := |results| - 1;
    var prior, e := results[..n], results[n];
    var t := Collect(prior);
    assert Collect(results) == Put(t, e);
    var names := TickersOf(results);
    assert names[..n] == TickersOf(prior) && names[n] == e.ticker;
    KeysAreTickers(prior, e.ticker);
    if e.ticker !in Keys(t) {
      TickersOfSnoc(t, e);
    }
  }

  lemma KeysAreTickers(t: seq<Entry>, k: string)
    ensures k in Keys(t) <==> k in TickersOf(t)
  {
    KeysMembership(t, k);
    if k in TickersOf(t) {
      var i :| 0 <= i < |t| && TickersOf(t)[i] == k;
      assert t[i].ticker == k;
    }
  }

  lemma TickersOfSnoc(t: seq<Entry>, e: Entry)
    ensures TickersOf(t + [e]) == TickersOf(t) + [e.ticker]
  {
  }

  /** The table has one entry per distinct ticker: at most as many as results,
      and exactly as many when no ticker repeats. */
  lemma CollectSize(results: seq<Entry>)
    ensures |Collect(results)| == |Keys(results)|
    ensures |Collect(results)| <= |results|
    ensures |Collect(results)| == |results| <==> UniqueTickers(results)
  {
    KeysSize(Collect(results));
    KeysSize(results);
  }
}
