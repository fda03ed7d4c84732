/** The (ticker, volatility) pair a worker reports and the predicates shared over lists of them. */
module Entries {

  /** One worker's result: the ticker named in its file and that file's volatility percentage. */
  datatype Entry = Entry(ticker: string, volatility: real)

  function TickersOf(s: seq<Entry>): (r: seq<string>)
    ensures |r| == |s|
    ensures forall i :: 0 <= i < |s| ==> r[i] == s[i].ticker
  {
    if |s| == 0 then [] else [s[0].ticker] + TickersOf(s[1..])
  }

  predicate UniqueTickers(s: seq<Entry>) {
    forall i, j :: 0 <= i < j < |s| ==> s[i].ticker != s[j].ticker
  }

  /** The sort key of the ranking: a goes no later than b when it is at least as volatile. */
  predicate AtLeastAsVolatile(a: Entry, b: Entry) {
    a.volatility >= b.volatility
  }

  predicate NonIncreasing(s: seq<Entry>) {
    forall i, j :: 0 <= i < j < |s| ==> s[i].volatility >= s[j].volatility
  }

  /** The entries of s with volatility v, in the order of s. */
  function WithVolatility(s: seq<Entry>, v: real): (r: seq<Entry>)
    ensures |r| <= |s|
    ensures forall i :: 0 <= i < |r| ==> r[i].volatility == v && r[i] in s
  {
    if |s| == 0 then []
    else (if s[0].volatility == v then [s[0]] else []) + WithVolatility(s[1..], v)
  }
}
