/**
  One worker's pass over one trade-log file (`FileParser.run` and
  `FileParser.volatility_result`): every line is stripped and split into
  `ticker,time,price,quantity`; numeric prices feed a running minimum and
  maximum; the result is the last line's ticker and the volatility
  percentage `((max - min) / ((max + min) / 2)) * 100`.

  `str.isalpha` and `float()` on the price field are abstracted into a
  caller-supplied classification of the field text.
*/
module FileScan {
  import opened Wrappers
  import opened Text
  import opened Entries

  /** What the program makes of a price field: an alphabetic marker that is
      skipped, a number, or text `float()` rejects. */
  datatype Price = Alpha | Num(value: real) | Unparsable

  datatype Record = Record(ticker: string, time: string, price: Price, quantity: string)

  /** The exceptions that end a worker without a result. */
  datatype ScanError =
    | MalformedLine      // the line does not unpack into four fields
    | UnparsablePrice    // float() rejects a non-alphabetic price field
    | DivisionUndefined  // max + min == 0 in volatility_result
    | UnboundTicker      // no line was read, so the ticker name was never bound

  /** The worker's locals: `min_price`, `max_price` and the last `_name`. */
  datatype ScanState = ScanState(low: real, high: real, ticker: Option<string>)

  const Start: ScanState := ScanState(0.0, 0.0, None)

  /** A line is stripped, split at every comma, and unpacked into exactly four fields. */
  function ParseLine(line: string, classify: string -> Price): Result<Record, ScanError> {
    var fields := Split(Strip(line), ',');
    if |fields| != 4 then Failure(MalformedLine)
    else Success(Record(fields[0], fields[1], classify(fields[2]), fields[3]))
  }

  /** A line unpacks exactly when its stripped text holds three commas. */
  lemma ParseLineNeedsThreeCommas(line: string, classify: string -> Price)
    ensures ParseLine(line, classify).Success? <==> multiset(Strip(line))[','] == 3
  {
  }

  /** Four comma-free fields joined by commas (with any outer whitespace) parse back to those fields. */
  lemma ParseJoinedLine(line: string, a: string, b: string, c: string, d: string, classify: string -> Price)
    requires ',' !in a && ',' !in b && ',' !in c && ',' !in d
    requires Strip(line) == Join([a, b, c, d], ',')
    ensures ParseLine(line, classify) == Success(Record(a, b, classify(c), d))
  {
    SplitJoin([a, b, c, d], ',');
  }

  /** The running min/max update for one numeric price (the `if`/`if`/`elif` block). */
  function Observe(st: ScanState, p: real): (r: ScanState)
    ensures r.ticker == st.ticker
    ensures r.high >= p && r.high >= st.high && (r.high == p || r.high == st.high)
    ensures st.low <= st.high ==> r.low <= r.high
    ensures st.low == 0.0 ==> r.low == p
    ensures st.low != 0.0 && st.low <= st.high ==>
              r.low <= p && r.low <= st.low && (r.low == p || r.low == st.low)
  {
    var low := if st.low == 0.0 then p else st.low;
    if p > st.high then st.(low := low, high := p)
    else if p < low then st.(low := p)
    else st.(low := low)
  }

  /** The same update with the two comparisons made independently instead of as `if`/`elif`. */
  function ObserveIndependently(st: ScanState, p: real): ScanState {
    var low := if st.low == 0.0 then p else st.low;
    ScanState(if p < low then p else low, if p > st.high then p else st.high, st.ticker)
  }

  /** Since min never exceeds max, a new maximum is never also a new minimum:
      the `elif` loses nothing. */
  lemma ElifLosesNoMinimum(st: ScanState, p: real)
    requires st.low <= st.high
    ensures Observe(st, p) == ObserveIndependently(st, p)
  {
  }

  /** One line's effect: the name is always taken, the price only when it is not alphabetic. */
  function Step(st: ScanState, rec: Record): (r: Result<ScanState, ScanError>)
    ensures r.Success? <==> !rec.price.Unparsable?
    ensures r.Success? ==> r.value.ticker == Some(rec.ticker)
    ensures rec.price.Alpha? ==> r.Success? && r.value.low == st.low && r.value.high == st.high
  {
    match rec.price
    case Alpha => Success(st.(ticker := Some(rec.ticker)))
    case Unparsable => Failure(UnparsablePrice)
    case Num(p) => Success(Observe(st, p).(ticker := Some(rec.ticker)))
  }

  /** One iteration of the `for line in ff` loop. */
  function ScanLine(st: ScanState, line: string, classify: string -> Price): Result<ScanState, ScanError> {
    var rec :- ParseLine(line, classify);
    Step(st, rec)
  }

  /** The `for line in ff` loop; the first exception ends it. */
  function ScanLines(st: ScanState, lines: seq<string>, classify: string -> Price): Result<ScanState, ScanError>
    decreases |lines|
  {
    if |lines| == 0 then Success(st)
    else
      var next :- ScanLine(st, lines[0], classify);
      ScanLines(next, lines[1..], classify)
  }

  /** The volatility percentage: the spread of the extremes relative to their midpoint. */
  function Spread(low: real, high: real): real
    requires high + low != 0.0
  {
    ((high - low) / ((high + low) / 2.0)) * 100.0
  }

  /** For positive prices with low <= high the spread lies in [0, 200) and vanishes only when they meet. */
  lemma SpreadBounds(low: real, high: real)
    requires 0.0 < low <= high
    ensures 0.0 <= Spread(low, high) < 200.0
    ensures Spread(low, high) == 0.0 <==> low == high
  {
    var half := (high + low) / 2.0;
    QuotientBounds(high - low, half);
  }

  /** For 0 <= a < 2b the quotient a / b lies in [0, 2) and is 0 only for a == 0. */
  lemma QuotientBounds(a: real, b: real)
    requires 0.0 <= a < 2.0 * b
    ensures 0.0 <= a / b < 2.0
    ensures a / b == 0.0 <==> a == 0.0
  {
    assert b > 0.0;
    var q := a / b;
    assert q * b == a;
    if q < 0.0 {
      ProductSign(-q, b);
    }
    if q >= 2.0 {
      ProductSign(q - 2.0, b);
    }
  }

  lemma ProductSign(x: real, y: real)
    requires x >= 0.0 && y > 0.0
    ensures x * y >= 0.0
    ensures x * y == 0.0 <==> x == 0.0
  {
  }

  /** `volatility_result` without the final `round(..., 2)`. */
  function Volatility(low: real, high: real): (r: Result<real, ScanError>)
    ensures r.Failure? <==> high + low == 0.0
    ensures r.Failure? ==> r.error == DivisionUndefined
    ensures r.Success? ==> (r.value == 0.0 <==> low == high)
    ensures 0.0 < low <= high ==> r.Success? && 0.0 <= r.value < 200.0
  {
    if (high + low) / 2.0 == 0.0 then Failure(DivisionUndefined)
    else
      if 0.0 < low <= high then SpreadBounds(low, high); Success(Spread(low, high))
      else Success(Spread(low, high))
  }

  /** What a worker puts on the queue for one file, or the exception that stops it. */
  function FileResult(lines: seq<string>, classify: string -> Price): Result<Entry, ScanError> {
    var st :- ScanLines(Start, lines, classify);
    var v :- Volatility(st.low, st.high);
    match st.ticker
    case None => Failure(UnboundTicker)
    case Some(t) => Success(Entry(t, v))
  }

  // ---------------------------------------------------------------------
  // Properties of the scan

  /** The numeric prices of a file, in line order. */
  function Quotes(lines: seq<string>, classify: string -> Price): (q: seq<real>)
    ensures |q| <= |lines|
    decreases |lines|
  {
    if |lines| == 0 then [] else QuoteOf(lines[0], classify) + Quotes(lines[1..], classify)
  }

  /** The price a line contributes, if it is numeric. */
  function QuoteOf(line: string, classify: string -> Price): (q: seq<real>)
    ensures |q| <= 1
  {
    match ParseLine(line, classify)
    case Success(Record(_, _, Num(p), _)) => [p]
    case _ => []
  }

  /** Every line unpacks into four fields and no price field is rejected by `float()`. */
  predicate WellFormed(lines: seq<string>, classify: string -> Price) {
    forall i :: 0 <= i < |lines| ==> LineOk(lines[i], classify)
  }

  predicate LineOk(line: string, classify: string -> Price) {
    ParseLine(line, classify).Success? && !ParseLine(line, classify).value.price.Unparsable?
  }

  lemma WellFormedTail(lines: seq<string>, classify: string -> Price)
    requires |lines| > 0 && WellFormed(lines, classify)
    ensures LineOk(lines[0], classify) && WellFormed(lines[1..], classify)
  {
    forall i | 0 <= i < |lines[1..]|
      ensures LineOk(lines[1..][i], classify)
    {
      assert lines[1..][i] == lines[i + 1];
    }
  }

  /** A well-formed line either moves min/max like its numeric price or leaves them alone. */
  lemma LineEffect(st: ScanState, line: string, classify: string -> Price)
    requires LineOk(line, classify)
    ensures ScanLine(st, line, classify).Success?
    ensures var next := ScanLine(st, line, classify).value;
            var q := QuoteOf(line, classify);
            if |q| == 0 then next.low == st.low && next.high == st.high
            else next.low == Observe(st, q[0]).low && next.high == Observe(st, q[0]).high
  {
  }

  predicate IsMin(m: real, q: seq<real>) {
    m in q && forall x :: x in q ==> m <= x
  }

  predicate IsMax(m: real, q: seq<real>) {
    m in q && forall x :: x in q ==> x <= m
  }

  function MinOf(q: seq<real>): (m: real)
    requires |q| > 0
    ensures IsMin(m, q)
  {
    if |q| == 1 then q[0]
    else
      assert q == [q[0]] + q[1..];
      var m := MinOf(q[1..]);
      if q[0] <= m then q[0] else m
  }

  function MaxOf(q: seq<real>): (m: real)
    requires |q| > 0
    ensures IsMax(m, q)
  {
    if |q| == 1 then q[0]
    else
      assert q == [q[0]] + q[1..];
      var m := MaxOf(q[1..]);
      if q[0] >= m then q[0] else m
  }

  /** The state holds the extremes of the prices seen so far, or the initial zeros before any. */
  ghost predicate Tracks(st: ScanState, seen: seq<real>) {
    if |seen| == 0 then st.low == 0.0 && st.high == 0.0
    else 0.0 < st.low && IsMin(st.low, seen) && IsMax(st.high, seen)
  }

  /** One positive price (or none) keeps the tracked extremes exact. */
  lemma TracksStep(st: ScanState, next: ScanState, seen: seq<real>, here: seq<real>)
    requires Tracks(st, seen)
    requires forall x :: x in seen ==> x > 0.0
    requires |here| <= 1 && forall x :: x in here ==> x > 0.0
    requires |here| == 0 ==> next.low == st.low && next.high == st.high
    requires |here| == 1 ==> next.low == Observe(st, here[0]).low && next.high == Observe(st, here[0]).high
    ensures Tracks(next, seen + here)
  {
    if |here| == 1 {
      var p := here[0];
      assert p in here;
      if |seen| > 0 {
        forall x | x in seen + here
          ensures next.low <= x <= next.high
        {
          assert x in seen || x == p;
        }
      }
    } else {
      assert seen + here == seen;
    }
  }

  /** Regrouping a concatenation, kept as a lemma so the step is proved outside the
      large context of `ScanTracksExtremes`. */
  lemma Associative(a: seq<real>, b: seq<real>, c: seq<real>)
    ensures a + b + c == a + (b + c)
  {
  }

  lemma {:induction false} ScanTracksExtremes(st: ScanState, lines: seq<string>, seen: seq<real>, classify: string -> Price)
    requires WellFormed(lines, classify)
    requires forall x :: x in seen ==> x > 0.0
    requires forall x :: x in Quotes(lines, classify) ==> x > 0.0
    requires Tracks(st, seen)
    ensures ScanLines(st, lines, classify).Success?
    ensures Tracks(ScanLines(st, lines, classify).value, seen + Quotes(lines, classify))
    decreases |lines|
  {
    if |lines| > 0 {
      WellFormedTail(lines, classify);
      LineEffect(st, lines[0], classify);
      var next := ScanLine(st, lines[0], classify).value;
      var here := QuoteOf(lines[0], classify);
      var rest := Quotes(lines[1..], classify);
      assert Quotes(lines, classify) == here + rest;
      AllPositive(here, rest);
      TracksStep(st, next, seen, here);
      AllPositive(seen, here);
      ScanTracksExtremes(next, lines[1..], seen + here, classify);
      ScanLinesCons(st, lines, classify);
      Associative(seen, here, rest);
    }
  }

  /** Both parts of a concatenation are positive exactly when the whole is. */
  lemma AllPositive(a: seq<real>, b: seq<real>)
    ensures (forall x :: x in a + b ==> x > 0.0) <==>
            (forall x :: x in a ==> x > 0.0) && (forall x :: x in b ==> x > 0.0)
  {
    if forall x :: x in a ==> x > 0.0 {
      if forall x :: x in b ==> x > 0.0 {
        forall x | x in a + b
          ensures x > 0.0
        {
          assert x in a || x in b;
        }
      }
    }
    if forall x :: x in a + b ==> x > 0.0 {
      forall x | x in a
        ensures x > 0.0
      {
        assert x in a + b;
      }
      forall x | x in b
        ensures x > 0.0
      {
        assert x in a + b;
      }
    }
  }

  /** The reported ticker is the name field of the last line, whatever its price said. */
  lemma LastLineNamesTicker(st: ScanState, lines: seq<string>, classify: string -> Price)
    requires |lines| > 0
    requires ScanLines(st, lines, classify).Success?
    ensures ParseLine(lines[|lines| - 1], classify).Success?
    ensures ScanLines(st, lines, classify).value.ticker == Some(ParseLine(lines[|lines| - 1], classify).value.ticker)
  {
    var n := |lines|;
    ScanLinesSnoc(st, lines, classify);
    var prefix := ScanLines(st, lines[..n - 1], classify);
    if prefix.Success? {
      LastStepNamesTicker(prefix.value, lines[n - 1], classify);
    }
  }

  /** The loop over all lines is the loop over all but the last, then the body on the last. */
  lemma ScanLinesSnoc(st: ScanState, lines: seq<string>, classify: string -> Price)
    requires |lines| > 0
    ensures ScanLines(st, lines, classify) ==
              match ScanLines(st, lines[..|lines| - 1], classify)
              case Success(mid) => ScanLine(mid, lines[|lines| - 1], classify)
              case Failure(e) => Failure(e)
  {
    var n := |lines|;
    var before, last := lines[..n - 1], lines[n - 1];
    assert lines == before + [last];
    ScanLinesConcat(st, before, [last], classify);
    var prefix := ScanLines(st, before, classify);
    if prefix.Success? {
      ScanSingleLine(prefix.value, last, classify);
    }
  }

  lemma LastStepNamesTicker(st: ScanState, line: string, classify: string -> Price)
    requires ScanLine(st, line, classify).Success?
    ensures ParseLine(line, classify).Success?
    ensures ScanLine(st, line, classify).value.ticker == Some(ParseLine(line, classify).value.ticker)
  {
  }

  /** A line with an alphabetic price leaves the running min and max alone; only its name is taken. */
  lemma AlphaLineKeepsRange(st: ScanState, lines: seq<string>, line: string, classify: string -> Price)
    requires ScanLines(st, lines, classify).Success?
    requires ParseLine(line, classify).Success? && ParseLine(line, classify).value.price == Alpha
    ensures var before := ScanLines(st, lines, classify).value;
            ScanLines(st, lines + [line], classify) ==
              Success(ScanState(before.low, before.high, Some(ParseLine(line, classify).value.ticker)))
  {
    ScanLinesConcat(st, lines, [line], classify);
    ScanSingleLine(ScanLines(st, lines, classify).value, line, classify);
  }

  /** min never exceeds max at any point of the scan, whatever the prices. */
  lemma {:induction false} ScanKeepsOrder(st: ScanState, lines: seq<string>, classify: string -> Price)
    requires st.low <= st.high
    requires ScanLines(st, lines, classify).Success?
    ensures ScanLines(st, lines, classify).value.low <= ScanLines(st, lines, classify).value.high
    decreases |lines|
  {
    if |lines| > 0 {
      ScanKeepsOrder(ScanLine(st, lines[0], classify).value, lines[1..], classify);
    }
  }

  /** A line that does not unpack, or whose price `float()` rejects, anywhere in the file ends the worker. */
  lemma BadLineFails(st: ScanState, lines: seq<string>, i: nat, classify: string -> Price)
    requires i < |lines|
    requires !LineOk(lines[i], classify)
    ensures ScanLines(st, lines, classify).Failure?
  {
    var before, after := lines[..i], lines[i..];
    assert lines == before + after;
    ScanLinesConcat(st, before, after, classify);
    var prefix := ScanLines(st, before, classify);
    if prefix.Success? {
      BadLineStops(prefix.value, after[0], classify);
      FailedHeadFails(prefix.value, after, classify);
    }
  }

  /** Scanning two runs of lines is scanning the first, then the second from where it left off. */
  lemma {:induction false} ScanLinesConcat(st: ScanState, a: seq<string>, b: seq<string>, classify: string -> Price)
    ensures ScanLines(st, a + b, classify) ==
              match ScanLines(st, a, classify)
              case Success(mid) => ScanLines(mid, b, classify)
              case Failure(e) => Failure(e)
    decreases |a|
  {
    if |a| > 0 {
      assert (a + b)[1..] == a[1..] + b;
      assert (a + b)[0] == a[0];
      var first := ScanLine(st, a[0], classify);
      if first.Success? {
        ScanLinesConcat(first.value, a[1..], b, classify);
      }
    } else {
      assert a + b == b;
    }
  }

  lemma FailedHeadFails(st: ScanState, lines: seq<string>, classify: string -> Price)
    requires |lines| > 0 && ScanLine(st, lines[0], classify).Failure?
    ensures ScanLines(st, lines, classify).Failure?
  {
  }

  lemma BadLineStops(st: ScanState, line: string, classify: string -> Price)
    requires !LineOk(line, classify)
    ensures ScanLine(st, line, classify).Failure?
  {
  }

  /** The loop body on the first line, then the loop on the rest. */
  lemma ScanLinesCons(st: ScanState, lines: seq<string>, classify: string -> Price)
    requires |lines| > 0 && ScanLine(st, lines[0], classify).Success?
    ensures ScanLines(st, lines, classify) == ScanLines(ScanLine(st, lines[0], classify).value, lines[1..], classify)
  {
  }

  /** A one-line file is one iteration of the loop body. */
  lemma ScanSingleLine(st: ScanState, line: string, classify: string -> Price)
    ensures ScanLines(st, [line], classify) == ScanLine(st, line, classify)
  {
    assert [line][1..] == [];
  }

  /** Such a file therefore yields no result at all. */
  lemma BadFileHasNoResult(lines: seq<string>, i: nat, classify: string -> Price)
    requires i < |lines|
    requires !LineOk(lines[i], classify)
    ensures FileResult(lines, classify).Failure?
  {
    BadLineFails(Start, lines, i, classify);
  }

  /** Without a single numeric price min and max stay at 0. */
  lemma {:induction false} NoQuotesNoResult(st: ScanState, lines: seq<string>, classify: string -> Price)
    requires WellFormed(lines, classify)
    requires Quotes(lines, classify) == []
    requires st.low == 0.0 && st.high == 0.0
    ensures ScanLines(st, lines, classify).Success?
    ensures ScanLines(st, lines, classify).value.low == 0.0 && ScanLines(st, lines, classify).value.high == 0.0
    decreases |lines|
  {
    if |lines| > 0 {
      WellFormedTail(lines, classify);
      LineEffect(st, lines[0], classify);
      assert Quotes(lines, classify) == QuoteOf(lines[0], classify) + Quotes(lines[1..], classify);
      NoQuotesNoResult(ScanLine(st, lines[0], classify).value, lines[1..], classify);
    }
  }

  /** A file without a numeric price, the empty file included, yields no result: the division fails. */
  lemma NoQuotesDivisionUndefined(lines: seq<string>, classify: string -> Price)
    requires WellFormed(lines, classify)
    requires Quotes(lines, classify) == []
    ensures FileResult(lines, classify) == Failure(DivisionUndefined)
  {
    NoQuotesNoResult(Start, lines, classify);
  }

  /** The loop itself only stops on a line that does not unpack or a price `float()` rejects. */
  lemma {:induction false} ScanErrorsAreLineErrors(st: ScanState, lines: seq<string>, classify: string -> Price)
    ensures ScanLines(st, lines, classify).Failure? ==>
              ScanLines(st, lines, classify).error == MalformedLine ||
              ScanLines(st, lines, classify).error == UnparsablePrice
    decreases |lines|
  {
    if |lines| > 0 {
      var first := ScanLine(st, lines[0], classify);
      if first.Success? {
        ScanErrorsAreLineErrors(first.value, lines[1..], classify);
        ScanLinesCons(st, lines, classify);
      } else {
        FailedHeadFails(st, lines, classify);
      }
    }
  }

  /** The name is unbound only when no line was read, and then min and max are both 0, so the
      division fails first: no file ever stops the worker with an unbound name. */
  lemma NeverUnboundTicker(lines: seq<string>, classify: string -> Price)
    ensures FileResult(lines, classify) != Failure(UnboundTicker)
  {
    var scan := ScanLines(Start, lines, classify);
    ScanErrorsAreLineErrors(Start, lines, classify);
    if scan.Success? {
      if |lines| > 0 {
        LastLineNamesTicker(Start, lines, classify);
        FileResultOfScan(lines, classify);
      } else {
        assert scan == Success(Start);
        assert Volatility(0.0, 0.0) == Failure(DivisionUndefined);
      }
    }
  }

  /** For a well-formed file with positive prices the worker reports the last line's ticker and
      the volatility of the lowest and highest price; it lies in [0, 200) and is 0 exactly when
      every price is the same. */
  lemma {:induction false} FileVolatility(lines: seq<string>, classify: string -> Price)
    requires WellFormed(lines, classify)
    requires |Quotes(lines, classify)| > 0
    requires forall x :: x in Quotes(lines, classify) ==> x > 0.0
    ensures |lines| > 0 && LineOk(lines[|lines| - 1], classify)
    ensures FileResult(lines, classify).Success?
    ensures var e := FileResult(lines, classify).value;
            var q := Quotes(lines, classify);
            var lo, hi := MinOf(q), MaxOf(q);
            && e.ticker == ParseLine(lines[|lines| - 1], classify).value.ticker
            && e.volatility == Spread(lo, hi)
            && 0.0 <= e.volatility < 200.0
            && (e.volatility == 0.0 <==> forall i, j :: 0 <= i < |q| && 0 <= j < |q| ==> q[i] == q[j])
  {
    var q := Quotes(lines, classify);
    var lo, hi := MinOf(q), MaxOf(q);
    ScanFindsExtremes(lines, classify);
    var st := ScanLines(Start, lines, classify).value;
    LastLineNamesTicker(Start, lines, classify);
    assert lo in q && hi in q;
    assert 0.0 < lo <= hi;
    var v := Volatility(lo, hi);
    assert v.Success? && 0.0 <= v.value < 200.0 && (v.value == 0.0 <==> lo == hi);
    assert ScanLines(Start, lines, classify) == Success(st);
    assert st.low == lo && st.high == hi && st.ticker.Some?;
    FileResultOfScan(lines, classify);
    ExtremesMeetIffConstant(q);
  }

  /** How a worker's result is assembled from a scan that succeeded. */
  lemma FileResultOfScan(lines: seq<string>, classify: string -> Price)
    requires ScanLines(Start, lines, classify).Success?
    requires ScanLines(Start, lines, classify).value.ticker.Some?
    ensures var st := ScanLines(Start, lines, classify).value;
            FileResult(lines, classify) ==
              match Volatility(st.low, st.high)
              case Success(v) => Success(Entry(st.ticker.value, v))
              case Failure(e) => Failure(e)
  {
  }

  /** The lowest and highest price coincide exactly when all prices are equal. */
  lemma ExtremesMeetIffConstant(q: seq<real>)
    requires |q| > 0
    ensures MinOf(q) == MaxOf(q) <==> forall i, j :: 0 <= i < |q| && 0 <= j < |q| ==> q[i] == q[j]
  {
    if MinOf(q) == MaxOf(q) {
      forall i, j | 0 <= i < |q| && 0 <= j < |q|
        ensures q[i] == q[j]
      {
        assert q[i] in q && q[j] in q;
      }
    }
  }

  /** On positive prices the scan ends holding exactly the lowest and the highest price. */
  lemma ScanFindsExtremes(lines: seq<string>, classify: string -> Price)
    requires WellFormed(lines, classify)
    requires |Quotes(lines, classify)| > 0
    requires forall x :: x in Quotes(lines, classify) ==> x > 0.0
    ensures |lines| > 0
    ensures ScanLines(Start, lines, classify).Success?
    ensures ScanLines(Start, lines, classify).value.low == MinOf(Quotes(lines, classify))
    ensures ScanLines(Start, lines, classify).value.high == MaxOf(Quotes(lines, classify))
  {
    var q := Quotes(lines, classify);
    ScanTracksExtremes(Start, lines, [], classify);
    assert [] + q == q;
  }

  /** The `min == 0` re-seed forgets a genuine price of 0: after prices 0 then p the minimum is p. */
  lemma ZeroPriceIsForgotten(p: real)
    requires p > 0.0
    ensures Observe(Observe(Start, 0.0), p) == ScanState(p, p, None)
  {
  }

  /** A price of 0 after positive prices drops min to 0, and the next price re-seeds it: prices
      5, 0 and 7 end with min and max both 7, so the file reports volatility 0. */
  lemma ZeroPriceResetsMinimum()
    ensures Observe(Start, 5.0).low == 5.0
    ensures Observe(Observe(Start, 5.0), 0.0).low == 0.0
    ensures Observe(Observe(Observe(Start, 5.0), 0.0), 7.0) == ScanState(7.0, 7.0, None)
  {
  }

  /** A negative first price leaves max at its initial 0, which is no price of the file. */
  lemma NegativePricesKeepZeroMax(p: real)
    requires p < 0.0
    ensures Observe(Start, p) == ScanState(p, 0.0, None)
  {
  }

  /** A file line `a,b,c,d` with its newline. */
  function CsvLine(a: string, b: string, c: string, d: string): string {
    a + "," + b + "," + c + "," + d + "\n"
  }

  /** Three quotes 100, 150 and 120 give min 100, max 150 and volatility 50 / 125 * 100 = 40. */
  lemma ThreeQuoteExample(classify: string -> Price)
    requires classify("100") == Num(100.0) && classify("150") == Num(150.0) && classify("120") == Num(120.0)
    ensures FileResult([CsvLine("AAA", "t1", "100", "10"), CsvLine("AAA", "t2", "150", "10"),
                        CsvLine("AAA", "t3", "120", "10")], classify) == Success(Entry("AAA", 40.0))
  {
    var l0, l1, l2 := CsvLine("AAA", "t1", "100", "10"), CsvLine("AAA", "t2", "150", "10"), CsvLine("AAA", "t3", "120", "10");
    QuoteLine("AAA", "t1", "100", "10", classify);
    QuoteLine("AAA", "t2", "150", "10", classify);
    QuoteLine("AAA", "t3", "120", "10", classify);
    ThreeQuoteScan(l0, l1, l2, classify);
  }

  lemma ThreeQuoteScan(l0: string, l1: string, l2: string, classify: string -> Price)
    requires ParseLine(l0, classify) == Success(Record("AAA", "t1", Num(100.0), "10"))
    requires ParseLine(l1, classify) == Success(Record("AAA", "t2", Num(150.0), "10"))
    requires ParseLine(l2, classify) == Success(Record("AAA", "t3", Num(120.0), "10"))
    ensures FileResult([l0, l1, l2], classify) == Success(Entry("AAA", 40.0))
  {
    var s1 := ScanState(100.0, 100.0, Some("AAA"));
    var s2 := ScanState(100.0, 150.0, Some("AAA"));
    ScanParsed(Start, l0, Record("AAA", "t1", Num(100.0), "10"), classify);
    ScanParsed(s1, l1, Record("AAA", "t2", Num(150.0), "10"), classify);
    ScanParsed(s2, l2, Record("AAA", "t3", Num(120.0), "10"), classify);
    ScanThree(l0, l1, l2, Start, s1, s2, s2, classify);
    FileResultOfScan([l0, l1, l2], classify);
    assert Spread(100.0, 150.0) == 40.0;
  }

  lemma ScanParsed(st: ScanState, line: string, rec: Record, classify: string -> Price)
    requires ParseLine(line, classify) == Success(rec)
    ensures ScanLine(st, line, classify) == Step(st, rec)
  {
  }

  lemma ScanThree(l0: string, l1: string, l2: string, s0: ScanState, s1: ScanState, s2: ScanState, s3: ScanState, classify: string -> Price)
    requires ScanLine(s0, l0, classify) == Success(s1)
    requires ScanLine(s1, l1, classify) == Success(s2)
    requires ScanLine(s2, l2, classify) == Success(s3)
    ensures ScanLines(s0, [l0, l1, l2], classify) == Success(s3)
  {
    assert [l2][1..] == [];
    assert ScanLines(s2, [l2], classify) == Success(s3);
    assert [l1, l2][1..] == [l2];
    assert ScanLines(s1, [l1, l2], classify) == Success(s3);
    assert [l0, l1, l2][1..] == [l1, l2];
  }

  /** A file line with four plain fields and its newline parses into those fields. */
  lemma QuoteLine(a: string, b: string, c: string, d: string, classify: string -> Price)
    requires |a| > 0 && |d| > 0 && !IsSpace(a[0]) && !IsSpace(d[|d| - 1])
    requires ',' !in a && ',' !in b && ',' !in c && ',' !in d
    ensures ParseLine(CsvLine(a, b, c, d), classify) == Success(Record(a, b, classify(c), d))
  {
    var body := a + "," + b + "," + c + "," + d;
    FieldEnds(a, b, c, d);
    StripLineEnd(body);
    JoinFour(a, b, c, d);
    ParseJoinedLine(body + "\n", a, b, c, d, classify);
  }

  lemma FieldEnds(a: string, b: string, c: string, d: string)
    requires |a| > 0 && |d| > 0
    ensures var body := a + "," + b + "," + c + "," + d;
            |body| > 0 && body[0] == a[0] && body[|body| - 1] == d[|d| - 1]
  {
  }

  lemma JoinFour(a: string, b: string, c: string, d: string)
    ensures Join([a, b, c, d], ',') == a + "," + b + "," + c + "," + d
  {
    assert [a, b, c, d][1..] == [b, c, d] && [b, c, d][1..] == [c, d] && [c, d][1..] == [d];
    assert Join([c, d], ',') == c + "," + d;
    assert Join([b, c, d], ',') == b + "," + (c + "," + d);
    assert Join([a, b, c, d], ',') == a + "," + (b + "," + (c + "," + d));
  }
}
