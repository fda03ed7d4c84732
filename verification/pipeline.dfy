/**
  The whole run with the processes taken out: one worker per file, the
  results of the workers that did not raise gathered into the table in the
  order they arrive, then ranking and bucketing. The order of `files` is the
  order in which the workers' results reach the collector.
*/
module Pipeline {
  import opened Wrappers
  import opened Entries
  import opened FileScan
  import opened ResultTable
  import opened Ranking
  import opened Sorting
  import opened Text

  /** The result of one file as the queue sees it: its entry, or nothing when its worker raised. */
  function Queued(result: Result<Entry, ScanError>): seq<Entry> {
    match result
    case Success(e) => [e]
    case Failure(_) => []
  }

  /** The results put on the queue: each worker puts its own result, whatever the others do,
      and a worker that raises puts nothing. */
  function Delivered(files: seq<seq<string>>, classify: string -> Price): (r: seq<Entry>)
    ensures |r| <= |files|
    ensures forall i :: 0 <= i < |files| && FileResult(files[i], classify).Success? ==>
              FileResult(files[i], classify).value in r
  {
    if |files| == 0 then []
    else
      var rest := Delivered(files[1..], classify);
      assert forall i :: 1 <= i < |files| ==> files[1..][i - 1] == files[i];
      Queued(FileResult(files[0], classify)) + rest
  }

  /** The data behind the console report: the ranked list and the three buckets. */
  datatype Report = Report(ranked: seq<Entry>, buckets: Buckets)

  /** The run: table, ranking, and the buckets of `get_statistic` as written. */
  function Run(files: seq<seq<string>>, classify: string -> Price, n: int): Report {
    var ranked := Rank(Collect(Delivered(files, classify)));
    Report(ranked, Statistic(ranked, n))
  }

  /** The same run with the corrected bucketing, whose tail scan reaches the first ranked entry too. */
  function RunCorrected(files: seq<seq<string>>, classify: string -> Price, n: int): Report {
    var ranked := Rank(Collect(Delivered(files, classify)));
    Report(ranked, StatisticCorrected(ranked, n))
  }

  /** Every delivered result is the result of some file, and none is lost unless its worker raised. */
  lemma DeliveredAreResults(files: seq<seq<string>>, classify: string -> Price)
    ensures forall e :: e in Delivered(files, classify) ==>
              exists i :: 0 <= i < |files| && FileResult(files[i], classify) == Success(e)
    ensures forall i :: 0 <= i < |files| && FileResult(files[i], classify).Success? ==>
              FileResult(files[i], classify).value in Delivered(files, classify)
    ensures |Delivered(files, classify)| == |files| <==>
              forall i :: 0 <= i < |files| ==> FileResult(files[i], classify).Success?
  {
    DeliveredComeFromFiles(files, classify);
    DeliveredCount(files, classify);
  }

  /** Results reach the queue in file order: one more file appends its own result, if any. */
  lemma {:induction false} DeliveredInFileOrder(files: seq<seq<string>>, file: seq<string>, classify: string -> Price)
    ensures Delivered(files + [file], classify) == Delivered(files, classify) + Queued(FileResult(file, classify))
  {
    var all := files + [file];
    if |files| > 0 {
      assert all[0] == files[0] && all[1..] == files[1..] + [file];
      DeliveredInFileOrder(files[1..], file, classify);
      ConcatAssociative(Queued(FileResult(files[0], classify)), Delivered(files[1..], classify),
                        Queued(FileResult(file, classify)));
    } else {
      assert all == [file] && all[1..] == [];
    }
  }

  lemma ConcatAssociative(a: seq<Entry>, b: seq<Entry>, c: seq<Entry>)
    ensures a + (b + c) == a + b + c
  {
  }

  lemma {:induction false} DeliveredComeFromFiles(files: seq<seq<string>>, classify: string -> Price)
    ensures forall e :: e in Delivered(files, classify) ==>
              exists i :: 0 <= i < |files| && FileResult(files[i], classify) == Success(e)
  {
    if |files| > 0 {
      DeliveredComeFromFiles(files[1..], classify);
      var rest := Delivered(files[1..], classify);
      forall e | e in Delivered(files, classify)
        ensures exists i :: 0 <= i < |files| && FileResult(files[i], classify) == Success(e)
      {
        if e in rest {
          var i :| 0 <= i < |files[1..]| && FileResult(files[1..][i], classify) == Success(e);
          assert files[1..][i] == files[i + 1];
        } else {
          assert FileResult(files[0], classify) == Success(e);
        }
      }
    }
  }

  lemma {:induction false} DeliveredCount(files: seq<seq<string>>, classify: string -> Price)
    ensures |Delivered(files, classify)| == |files| <==>
              forall i :: 0 <= i < |files| ==> FileResult(files[i], classify).Success?
  {
    if |files| > 0 {
      DeliveredCount(files[1..], classify);
      if forall i :: 0 <= i < |files| ==> FileResult(files[i], classify).Success? {
        forall i | 0 <= i < |files[1..]|
          ensures FileResult(files[1..][i], classify).Success?
        {
          assert files[1..][i] == files[i + 1];
        }
      } else {
        var i :| 0 <= i < |files| && FileResult(files[i], classify).Failure?;
        if i > 0 {
          assert files[1..][i - 1] == files[i];
        }
      }
    }
  }

  lemma {:induction false} LookupFindsMember(t: Table, e: Entry)
    requires UniqueTickers(t) && e in t
    ensures Lookup(t, e.ticker) == Some(e.volatility)
  {
    if t[0] != e {
      assert e in t[1..];
      assert UniqueTickers(t[1..]) by {
        forall i, j | 0 <= i < j < |t| - 1
          ensures t[1..][i].ticker != t[1..][j].ticker
        {
          assert t[1..][i] == t[i + 1] && t[1..][j] == t[j + 1];
        }
      }
      var k :| 0 <= k < |t[1..]| && t[1..][k] == e;
      assert t[k + 1] == e;
      LookupFindsMember(t[1..], e);
    }
  }

  /** The report lists every ticker some worker delivered exactly once, with the volatility of
      its last delivered result, highest first; it has one entry per file exactly when every
      file succeeded and no two files named the same ticker. */
  lemma RunReport(files: seq<seq<string>>, classify: string -> Price, n: int)
    ensures var d := Delivered(files, classify);
            var r := Run(files, classify, n).ranked;
            && NonIncreasing(r)
            && UniqueTickers(Collect(d))
            && multiset(r) == multiset(Collect(d))
            && Keys(Collect(d)) == Keys(d)
            && (forall e :: e in r ==> LastReported(d, e.ticker) == Some(e.volatility))
            && |r| <= |files|
            && (|r| == |files| <==>
                  (forall i :: 0 <= i < |files| ==> FileResult(files[i], classify).Success?) && UniqueTickers(d))
  {
    var d := Delivered(files, classify);
    var t := Collect(d);
    var r := Rank(t);
    RankOrdersTable(t);
    CollectSize(d);
    DeliveredAreResults(files, classify);
    forall e | e in r
      ensures LastReported(d, e.ticker) == Some(e.volatility)
    {
      assert e in multiset(r);
      LookupFindsMember(t, e);
      CollectKeepsLastWrite(d, e.ticker);
    }
  }

  /** The report's buckets stay empty up to 3 * n ranked entries. */
  lemma SmallRunHasNoBuckets(files: seq<seq<string>>, classify: string -> Price, n: int)
    requires |files| <= 3 * n
    ensures Run(files, classify, n).buckets == Buckets([], [], [])
  {
    RunReport(files, classify, n);
  }

  /** The ticker of every file whose worker did not raise appears in the ranked report. */
  lemma RunListsEverySuccess(files: seq<seq<string>>, classify: string -> Price, n: int, i: int)
    requires 0 <= i < |files| && FileResult(files[i], classify).Success?
    ensures FileResult(files[i], classify).value.ticker in TickersOf(Run(files, classify, n).ranked)
  {
    var d := Delivered(files, classify);
    var t := Collect(d);
    var e := FileResult(files[i], classify).value;
    var j :| 0 <= j < |d| && d[j] == e;
    KeysMembership(d, e.ticker);
    KeysMembership(t, e.ticker);
    var k :| 0 <= k < |t| && t[k].ticker == e.ticker;
    RankOrdersTable(t);
    assert t[k] in multiset(Rank(t));
    var m :| 0 <= m < |Rank(t)| && Rank(t)[m] == t[k];
    assert TickersOf(Rank(t))[m] == e.ticker;
  }

  /** Once the buckets are filled, "zero" lists by name the zero-volatility tickers ranked after
      the first entry; the first ranked entry is never looked at. */
  lemma RunZeroBucket(files: seq<seq<string>>, classify: string -> Price, n: int)
    requires n > 0 && |Run(files, classify, n).ranked| > 3 * n
    ensures var report := Run(files, classify, n);
            && SortedBy(report.buckets.zero, LexLe)
            && multiset(report.buckets.zero) == multiset(ZeroNames(Scanned(report.ranked)))
            && forall i :: 1 <= i < |report.ranked| && report.ranked[i].volatility == 0.0 ==>
                 report.ranked[i].ticker in report.buckets.zero
  {
    var t := Collect(Delivered(files, classify));
    RankOrdersTable(t);
    ScannedZeroBucket(Rank(t), n);
  }

  /** With the corrected bucketing, once the buckets are filled "zero" lists by name every
      reported ticker with volatility 0. */
  lemma RunCorrectedZeroBucket(files: seq<seq<string>>, classify: string -> Price, n: int)
    requires n > 0 && |RunCorrected(files, classify, n).ranked| > 3 * n
    ensures var report := RunCorrected(files, classify, n);
            && SortedBy(report.buckets.zero, LexLe)
            && multiset(report.buckets.zero) == multiset(ZeroNames(report.ranked))
            && forall e :: e in report.ranked && e.volatility == 0.0 ==> e.ticker in report.buckets.zero
  {
    var report := RunCorrected(files, classify, n);
    RunReport(files, classify, n);
    BucketsOverShape(report.ranked, n, report.ranked);
    CorrectedZeroBucketIsComplete(report.ranked, n);
  }
}
