# Ticker volatility parser — Dafny model

This project models the sequential core of `ticker_parser.py`, a tool that reads
one trade-log file per stock ticker and reports how volatile each ticker was.

- **Worker (`FileParser.run`, `FileParser.volatility_result`).** One worker reads one file.
  - It splits every line `ticker,time,price,quantity` into fields.
  - It skips alphabetic prices.
  - It keeps a running minimum and maximum price. The minimum is re-seeded while it is 0, and the maximum starts at 0.
  - It reports the ticker named on the last line, together with the volatility percentage `((max - min) / ((max + min) / 2)) * 100`.
- **Collector (line 195).** The collector stores each result in a dictionary keyed by ticker. A later result overwrites an earlier one, and a key keeps the position of its first insertion.
- **Ranking (`get_sorted_volatility_results`).** A stable sort of the table, highest volatility first.
- **Bucketing (`get_statistic`).** Builds three buckets from the ranked list:
  - the N most volatile entries;
  - the N least volatile positive entries among the entries after the first ranked one, found by a scan from the end of the list;
  - the zero-volatility tickers among the entries after the first ranked one, sorted by name.

Modules, one per part of the program:

| file | module | models |
|---|---|---|
| `wrappers.dfy` | `Wrappers` | `Option` and `Result` (the program's exceptions become `Failure` values) |
| `text.dfy` | `Text` | Python's `str.strip()`, `str.split(',')` and `str` ordering |
| `sorting.dfy` | `Sorting` | Python's stable `list.sort(key=…, reverse=…)` as an insertion sort over a "goes no later than" relation |
| `entries.dfy` | `Entries` | the `(ticker, volatility)` pair and predicates over lists of them |
| `file_scan.dfy` | `FileScan` | one worker: line parsing, the min/max loop, the volatility formula, the worker's result or exception |
| `result_table.dfy` | `ResultTable` | the last-write-wins, insertion-ordered result dictionary |
| `ranking.dfy` | `Ranking` | the ranking sort and the three buckets |
| `pipeline.dfy` | `Pipeline` | the whole run with processes removed: the results of the workers that did not raise, in arrival order, then table, ranking and buckets (`Run` as written, `RunCorrected` with the corrected bucketing) |

Prices and volatilities are Dafny `real`s (exact arithmetic). What `str.isalpha()` and
`float()` make of a price field is a parameter `classify: string -> Price`, where
`Price = Alpha | Num(v) | Unparsable`. A worker that raises becomes a `Failure`:

- `MalformedLine`: the line does not unpack into four fields (line 47).
- `UnparsablePrice`: `float()` rejects a non-alphabetic price (line 50, or line 51 once min is non-zero).
- `DivisionUndefined`: `max + min == 0` (lines 33-34).
- `UnboundTicker`: `_name` was never bound (line 56). The lemma `FileScan.NeverUnboundTicker` shows this case is unreachable.

Three behaviours of the code that a reader might not expect:

- **File with no numeric price.** This includes the empty file and a file whose prices are all alphabetic. Min and max are both still 0, so the division at line 34 (called from line 55) fails before line 56 is reached; in the empty file `_name` is also never bound. The model reports `DivisionUndefined` (`FileScan.NoQuotesDivisionUndefined`, `FileScan.NeverUnboundTicker`).
- **Line that does not split into four fields.** The tuple unpacking at line 47 raises, and the whole file yields no result (`FileScan.BadLineFails`).
- **Non-alphabetic, non-numeric price field.** For a field such as `12a`, `float()` raises at line 50, or at line 51 once min is non-zero, and the file yields no result.

## Model

| member | source | states |
|---|---|---|
| Text.TrimLeft | ticker_parser.py:47 | the leading-whitespace half of `strip()`: the result is a suffix of the input, everything dropped is whitespace, and the result does not start with whitespace |
| Text.TrimRight | ticker_parser.py:47 | the trailing-whitespace half of `strip()`: the result is a prefix of the input, everything dropped is whitespace, and the result does not end with whitespace |
| Text.StripIsIdempotent | ticker_parser.py:47 | stripping twice is stripping once; a non-empty stripped line begins and ends with a non-space |
| Text.StripLineEnd | ticker_parser.py:46-47 | a line read from the file with its newline strips back to its text when that text has no outer whitespace |
| Text.Split | ticker_parser.py:47 | `split(',')` yields one more piece than there are commas, and no piece contains a comma |
| Text.JoinSplit | ticker_parser.py:47 | joining the pieces of a split with the separator restores the original string |
| Text.SplitJoin | ticker_parser.py:47 | splitting comma-free fields joined by commas yields exactly those fields |
| Text.LexLeTotal | ticker_parser.py:154 | any two names are comparable under Python's string order |
| Text.LexLeTransitive | ticker_parser.py:154 | Python's string order is transitive |
| Text.LexLeAntisymmetric | ticker_parser.py:154 | two names that each sort no later than the other are equal |
| Sorting.Insert | ticker_parser.py:127 | inserting adds exactly that one element (multiset) |
| Sorting.SortBy | ticker_parser.py:127 | sorting is a permutation of its input |
| Sorting.InsertSorted | ticker_parser.py:127 | inserting into an ordered list keeps it ordered, for any total preorder |
| Sorting.SortByIsSorted | ticker_parser.py:127 | the sorted list is ordered by the key relation |
| Sorting.InsertStable | ticker_parser.py:127 | inserting never moves an element past a later one with an equal key |
| Sorting.SortByIsStable | ticker_parser.py:127 | for every key, the elements with that key appear in the sorted list in their input order (stability) |
| Sorting.SortByOfSorted | ticker_parser.py:127 | sorting an already ordered list returns it unchanged |
| FileScan.ParseLineNeedsThreeCommas | ticker_parser.py:47 | `FileScan.ParseLine`, the unpacking of one line: a line unpacks into four fields exactly when its stripped text has three commas |
| FileScan.ParseJoinedLine | ticker_parser.py:47 | four comma-free fields joined by commas, whatever the outer whitespace, parse back into those four fields |
| FileScan.QuoteLine | ticker_parser.py:46-47 | a file line `a,b,c,d` with its newline parses into `a`, `b`, the classification of `c`, and `d` |
| FileScan.Observe | ticker_parser.py:49-54 | one numeric price: the new max is the larger of the old max and the price; min <= max is preserved; while min is 0 it is re-seeded with the price; once min is non-zero the new min is the smaller of the old min and the price |
| FileScan.ElifLosesNoMinimum | ticker_parser.py:51-54 | while min <= max, the `elif` update equals checking the two comparisons independently: a new maximum is never also a missed minimum |
| FileScan.Step | ticker_parser.py:47-54 | a line fails only when `float()` rejects its price; it always makes its name the reported ticker; an alphabetic price leaves min and max unchanged |
| FileScan.SpreadBounds | ticker_parser.py:33-34 | for 0 < min <= max the volatility lies in [0, 200) and is 0 exactly when min == max |
| FileScan.Volatility | ticker_parser.py:24-35 | the division fails exactly when max + min == 0; otherwise the volatility is 0 exactly when min == max, and lies in [0, 200) for positive ordered prices |
| FileScan.ScanTracksExtremes | ticker_parser.py:45-54 | over well-formed lines with positive prices, the loop keeps min and max equal to the smallest and largest price seen so far |
| FileScan.ScanFindsExtremes | ticker_parser.py:45-54 | with positive prices, the loop ends with min and max equal to the smallest and largest price of the file |
| FileScan.ScanKeepsOrder | ticker_parser.py:45-54 | min never exceeds max at any point of the loop, whatever the prices |
| FileScan.ScanLinesConcat | ticker_parser.py:46-54 | `FileScan.ScanLines`, the `for line in ff` loop: running the loop over two runs of lines equals running it over the first and continuing from its state, or failing as the first failed |
| FileScan.LastLineNamesTicker | ticker_parser.py:46-56 | after a successful loop the reported ticker is the name field of the file's last line |
| FileScan.AlphaLineKeepsRange | ticker_parser.py:47-48 | appending a line with an alphabetic price leaves min and max as they were and only replaces the ticker |
| FileScan.BadLineFails | ticker_parser.py:47-50 | one line anywhere that does not unpack, or whose price `float()` rejects, makes the loop fail |
| FileScan.BadFileHasNoResult | ticker_parser.py:43-57 | such a file produces no result |
| FileScan.ScanErrorsAreLineErrors | ticker_parser.py:46-54 | the loop fails only with a malformed line or an unparsable price |
| FileScan.NoQuotesNoResult | ticker_parser.py:45-54 | without a numeric price, min and max stay at their initial 0 |
| FileScan.NoQuotesDivisionUndefined | ticker_parser.py:33-55 | a well-formed file with no numeric price (the empty file included) fails at the division |
| FileScan.NeverUnboundTicker | ticker_parser.py:43-56 | no file makes the worker fail on an unbound name, because the division fails first |
| FileScan.FileVolatility | ticker_parser.py:43-56 | `FileScan.FileResult`, one worker's result or exception: for a well-formed file with positive prices, the result is the last line's ticker with the volatility of the file's lowest and highest price; it lies in [0, 200) and is 0 exactly when every price is equal |
| FileScan.ExtremesMeetIffConstant | ticker_parser.py:33-34 | the lowest and highest price coincide exactly when all prices are equal |
| FileScan.ZeroPriceIsForgotten | ticker_parser.py:49-50 | the re-seed of a zero min forgets a genuine price of 0: after prices 0 and p > 0, min is p |
| FileScan.ZeroPriceResetsMinimum | ticker_parser.py:49-54 | a price of 0 after positive prices drops min to 0 and the next price re-seeds it: prices 5, 0, 7 end with min = max = 7, so the file reports volatility 0 |
| FileScan.NegativePricesKeepZeroMax | ticker_parser.py:45-52 | a first negative price leaves max at its initial 0, which is not a price of the file |
| FileScan.ThreeQuoteExample | ticker_parser.py:43-56 | three lines `AAA` at 100, 150 and 120 give the result (`AAA`, 40) |
| ResultTable.KeysSize | ticker_parser.py:195 | a list names at most as many tickers as it has entries, and exactly as many when no ticker repeats |
| ResultTable.Put | ticker_parser.py:195 | after the assignment the key maps to the new volatility and every other key is unchanged; an existing key keeps its position, and a new key is appended at the end |
| ResultTable.Collect | ticker_parser.py:193-195 | the table has no repeated ticker and its key set is exactly the set of tickers received |
| ResultTable.CollectKeepsLastWrite | ticker_parser.py:193-195 | each ticker maps to the volatility of its last result; a ticker never received is absent |
| ResultTable.CollectOrder | ticker_parser.py:193-195 | the table lists the tickers in order of first arrival, each once |
| ResultTable.CollectSize | ticker_parser.py:193-195 | the table has one entry per distinct ticker: at most as many as results, and exactly as many when no ticker repeats |
| Ranking.TiesAreEqualVolatility | ticker_parser.py:127 | under the ranking key, entries tie exactly when their volatilities are equal |
| Ranking.Rank | ticker_parser.py:126-127 | the ranked list holds exactly the table's entries (as a multiset), so it has the same length |
| Ranking.RankOrdersTable | ticker_parser.py:126-127 | the ranked list is a permutation of the table, non-increasing in volatility, and keeps table order among equal volatilities |
| Ranking.RankIsIdempotent | ticker_parser.py:126-127 | ranking a ranked list changes nothing |
| Ranking.TailScan | ticker_parser.py:142-152 | the backwards loop's "lowest" list holds no more entries than it scans, each of them positive and taken from the scanned list |
| Ranking.TailScanLowest | ticker_parser.py:142-148 | the backwards scan's "lowest" list holds the last `count` positive entries of what it scans, met from the end |
| Ranking.PositiveScanFindsNoZero | ticker_parser.py:142-150 | over only positive entries the scan finds no zero entry |
| Ranking.TailScanZero | ticker_parser.py:142-152 | on a ranked list with count > 0, the scan's "zero" list holds every zero-volatility ticker it scans, met from the end |
| Ranking.BucketsOverShape | ticker_parser.py:135-155 | over any scanned range: no buckets up to 3n entries; otherwise "highest" is the first n entries, "lowest" is those positives re-sorted highest first, with equal volatilities kept in the order the backwards scan met them, and "zero" is those tickers sorted by name |
| Ranking.StatisticBuckets | ticker_parser.py:129-155 | `Ranking.Statistic`, `get_statistic` as written: nothing up to 3n entries; otherwise "highest" is the first n ranked entries; "lowest" has at most n entries, all positive, highest first, is the last n positives after index 0, and keeps equal volatilities in the order met from the end; on a ranked list "zero" is the sorted zero-volatility tickers after index 0 |
| Ranking.FirstEntryNeverScanned | ticker_parser.py:142 | the first ranked entry never influences "lowest" or "zero" |
| Ranking.ZeroBucketMissesFirstEntry | ticker_parser.py:142-150 | as written, a zero-volatility first entry of a ranked list with distinct tickers is missing from the "zero" bucket |
| Ranking.CorrectedZeroBucketIsComplete | ticker_parser.py:142-150 | `Ranking.StatisticCorrected`, the bucketing with the scan reaching index 0: "zero" holds every zero-volatility ticker of the ranked list |
| Ranking.ScannedZeroBucket | ticker_parser.py:142-154 | as written, on a ranked list "zero" is sorted by name, holds exactly the zero-volatility tickers after index 0, and lists each of them |
| Ranking.LowestBucketMissesFirstEntry | ticker_parser.py:142-148 | as written, a positive first entry followed only by entries of volatility 0 or less leaves "lowest" empty |
| Ranking.CorrectedLowestBucketIsComplete | ticker_parser.py:142-148 | with the scan reaching index 0, a list with at most n positive entries has all of them in "lowest", the first entry included |
| Pipeline.Delivered | ticker_parser.py:55-57 | the queue holds at most one result per file, and the result of every worker that did not raise is on it, whatever the other workers do |
| Pipeline.DeliveredAreResults | ticker_parser.py:55-57 | every result on the queue is some file's worker result; every successful worker's result is on the queue; there is one per file exactly when no worker raised |
| Pipeline.DeliveredInFileOrder | ticker_parser.py:55-57 | results reach the queue in file order: one more file appends its own result, or nothing when its worker raised |
| Pipeline.RunReport | ticker_parser.py:186-203 | `Pipeline.Run`, the whole run: the ranked report is a non-increasing permutation of the table; each ticker appears once, with the volatility of its last delivered result; it has at most one entry per file, and exactly one per file when no worker raised and no ticker repeats |
| Pipeline.RunListsEverySuccess | ticker_parser.py:186-203 | the ticker of every file whose worker did not raise appears in the ranked report |
| Pipeline.SmallRunHasNoBuckets | ticker_parser.py:137 | a run with at most 3n files fills no bucket |
| Pipeline.RunZeroBucket | ticker_parser.py:142-154 | once the buckets are filled, "zero" is sorted by name and holds exactly the zero-volatility tickers ranked after the first entry |
| Pipeline.RunCorrectedZeroBucket | ticker_parser.py:142-154 | in `Pipeline.RunCorrected`, the corrected run, once the buckets are filled, "zero" is sorted by name and lists every reported ticker with volatility 0 |

## Left out

- Processes and the queue (lines 186-200: `Process`, `start`/`join`, `Queue(maxsize=5)`, the timeout and `is_alive` polling). The order in which results reach the collector is a parameter: the order of the file list in `Pipeline.Run`. The model reads every result a worker puts; the program's loop at lines 193-198 can stop with a result still in the pipe when a worker puts and exits between the timeout and the `is_alive` check, so "one result per file" (`Pipeline.DeliveredAreResults`, `Pipeline.RunReport`) holds of the model, not always of the program.
- `scan_folder`, `add_parser`, `print_result`, `VolatilityCounter.__init__` and the `__main__` block. These are filesystem traversal, process setup and console output.
- Opening and reading a file. A file is given as its sequence of lines, each with its line terminator. Text decoding and newline translation are not modelled.
- `round(..., 2)` at line 35. Volatilities are exact reals. Results that differ only after the second decimal are not merged into ties as the rounded values would be. A volatility in (0, 0.005) is rounded to 0.0 by the program, which puts its ticker in "zero"; here it stays positive, so the ticker can land in "lowest" instead.
- `float()` and `str.isalpha()` on the price field are the `classify` parameter, not a character-level parser. IEEE floating point is not modelled: `classify` yields exact reals, so there is no rounding, overflow, infinity or NaN.
- FileScan.FileVolatility: stated only for files whose numeric prices are all positive. For zero or negative prices the scan's quirks are shown on examples (`FileScan.ZeroPriceIsForgotten`, `FileScan.ZeroPriceResetsMinimum`, `FileScan.NegativePricesKeepZeroMax`) rather than by a general formula.
- Ranking.StatisticBuckets: the "zero" bucket's contents are stated only for a ranked (non-increasing) list, which is the only input the program passes in.

## Findings

| source | as written | input that shows it | evidently intended | confidence | as-written member | corrected member |
|---|---|---|---|---|---|---|
| ticker_parser.py:142 | the backwards scan uses `range(len - 1, 0, -1)`, which stops before index 0 | ten tickers that all have volatility 0 and bucket size 3: the ticker ranked first is missing from the "zero" bucket | the scan covers index 0 as well (`range(len - 1, -1, -1)`), so every zero-volatility ticker is reported | not executed | Ranking.ZeroBucketMissesFirstEntry | Ranking.CorrectedZeroBucketIsComplete |
| ticker_parser.py:142 | the same scan also keeps a positive first entry out of "lowest" | volatilities 5, 0, 0, 0, 0, 0, 0, 0, 0, 0 and bucket size 3: "lowest" is empty although one entry is positive | the scan covers index 0, so the first entry is a candidate for "lowest" | not executed | Ranking.LowestBucketMissesFirstEntry | Ranking.CorrectedLowestBucketIsComplete |

`Ranking.Statistic` models the code as written, and `Pipeline.Run` uses it. `Ranking.StatisticCorrected` is the same bucketing with the scan reaching index 0, and `Pipeline.RunCorrected` is the run that uses it.
