/** The index fetcher, `get_ibex_index()`: one attempt at the history of
    the symbol "^IBEX", no retry, no market cap. */
module IbexIndex {

  import opened Wrappers
  import opened Floats

  /** Records the `'^IBEX'` symbol the fetch asks for; an `IndexFetch` is the
      response for this one symbol, so nothing else refers to it. */
  const IndexSymbol: string := "^IBEX"

  /** The response to `ibex.history(period='5d')`: an exception, or the closing
      values, oldest first. */
  datatype IndexFetch = IndexRaised | IndexHistory(closes: seq<real>)

  /** The dictionary `{value, change, changePercent}`; `change` is the absolute
      delta here, unlike a company's `change`, which is a percentage. */
  datatype IndexData = IndexData(value: real, change: real, changePercent: real)

  /** The all-zero record that stands in for a failed index fetch. */
  const ZeroIndex: IndexData := IndexData(0.0, 0.0, 0.0)

  function GetIbexIndex(f: IndexFetch, fl: FloatModel): (r: Option<IndexData>)
    ensures r.None? <==> f.IndexRaised? || |f.closes| < 2
  {
    match f
    case IndexRaised => None
    case IndexHistory(closes) =>
      if |closes| < 2 then None
      else
        var current := closes[|closes| - 1];
        var previous := closes[|closes| - 2];
        var change := current - previous;
        Some(IndexData(fl.round2(current), fl.round2(change),
                       fl.round2(Quotient(change, previous, fl) * 100.0)))
  }

  /** A fetched index: last close, signed delta of the last two closes, and
      that delta as a percentage of the previous close, each rounded. */
  lemma IndexFields(closes: seq<real>, fl: FloatModel)
    requires |closes| >= 2
    ensures GetIbexIndex(IndexHistory(closes), fl).Some?
    ensures GetIbexIndex(IndexHistory(closes), fl).value.value == fl.round2(closes[|closes| - 1])
    ensures GetIbexIndex(IndexHistory(closes), fl).value.change ==
      fl.round2(closes[|closes| - 1] - closes[|closes| - 2])
    ensures closes[|closes| - 2] != 0.0 ==>
      GetIbexIndex(IndexHistory(closes), fl).value.changePercent ==
        fl.round2((closes[|closes| - 1] - closes[|closes| - 2]) / closes[|closes| - 2] * 100.0)
  {
  }

  /** The index's percent change has the same formula as a company's: it is
      `PercentChange` of the same two closes, before rounding. */
  lemma IndexPercentIsPercentChange(closes: seq<real>, fl: FloatModel)
    requires |closes| >= 2
    ensures GetIbexIndex(IndexHistory(closes), fl).value.changePercent ==
      fl.round2(PercentChange(closes[|closes| - 2], closes[|closes| - 1], fl))
  {
  }

  /** `index_data if index_data else {value: 0, change: 0, changePercent: 0}`. */
  function IndexOrZero(d: Option<IndexData>): (r: IndexData)
    ensures d.None? ==> r == ZeroIndex
    ensures d.Some? ==> r == d.value
  {
    if d.Some? then d.value else ZeroIndex
  }

  /** A failed index fetch is reported as exactly the zero record; a
      successful one is passed through unchanged. */
  lemma IndexFallback(f: IndexFetch, fl: FloatModel)
    ensures (f.IndexRaised? || |f.closes| < 2) ==>
      IndexOrZero(GetIbexIndex(f, fl)) == IndexData(0.0, 0.0, 0.0)
    ensures !(f.IndexRaised? || |f.closes| < 2) ==>
      Some(IndexOrZero(GetIbexIndex(f, fl))) == GetIbexIndex(f, fl)
  {
  }
}
