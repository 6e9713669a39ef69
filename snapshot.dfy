/** The snapshot builder, `update_data()`: the index once, then every
    registry entry in order with `get_stock_data`, keeping the successes. */
module Snapshot {

  import opened Wrappers
  import opened Floats
  import opened Registry
  import opened Quotes
  import opened IbexIndex

  /** One element of `companies`: descriptor fields, display ticker, quote. */
  datatype CompanyRecord = CompanyRecord(
    name: string, ticker: string, sector: string,
    price: real, change: real, marketCap: real)

  /** The document written to `ibex_data.json`. */
  datatype MarketSnapshot = MarketSnapshot(
    lastUpdate: string, index: IndexData, companies: seq<CompanyRecord>)

  function RecordOf(c: Company, d: StockData): (r: CompanyRecord)
  {
    CompanyRecord(c.name, StripExchange(c.ticker), c.sector, d.price, d.change, d.marketCap)
  }

  /** What `get_stock_data(company['ticker'])` returns for a registry entry. */
  function QuoteFor(c: Company, provider: Provider, fl: FloatModel): (q: Option<StockData>)
  {
    StockReport(provider, c.ticker, DefaultRetries, fl).result
  }

  /** `companies_data` after the loop has visited all of `reg`, in order. */
  function Collected(reg: seq<Company>, provider: Provider, fl: FloatModel): (out: seq<CompanyRecord>)
  {
    if reg == [] then []
    else
      var last := reg[|reg| - 1];
      var q := QuoteFor(last, provider, fl);
      Collected(reg[..|reg| - 1], provider, fl) + (if q.Some? then [RecordOf(last, q.value)] else [])
  }

  /** The registry positions whose fetch succeeded, in increasing order. */
  function Survivors(reg: seq<Company>, provider: Provider, fl: FloatModel): (idx: seq<nat>)
  {
    if reg == [] then []
    else
      Survivors(reg[..|reg| - 1], provider, fl) +
        (if QuoteFor(reg[|reg| - 1], provider, fl).Some? then [|reg| - 1] else [])
  }

  /** `companies` is the registry filtered to the successful fetches and
      mapped to records, order preserved: its k-th record comes from the
      k-th surviving position, which holds name and sector of that entry and
      its quote, and a position survives exactly when its fetch succeeded. */
  lemma {:induction false} CollectedIsFilterMap(reg: seq<Company>, provider: Provider, fl: FloatModel)
    ensures |Survivors(reg, provider, fl)| == |Collected(reg, provider, fl)| <= |reg|
    ensures forall k, l :: 0 <= k < l < |Survivors(reg, provider, fl)| ==>
      Survivors(reg, provider, fl)[k] < Survivors(reg, provider, fl)[l]
    ensures forall k :: 0 <= k < |Survivors(reg, provider, fl)| ==>
      Survivors(reg, provider, fl)[k] < |reg| &&
      QuoteFor(reg[Survivors(reg, provider, fl)[k]], provider, fl).Some? &&
      Collected(reg, provider, fl)[k] ==
        RecordOf(reg[Survivors(reg, provider, fl)[k]],
                 QuoteFor(reg[Survivors(reg, provider, fl)[k]], provider, fl).value)
    ensures forall i :: 0 <= i < |reg| ==>
      (QuoteFor(reg[i], provider, fl).Some? <==> i in Survivors(reg, provider, fl))
  {
    if reg != [] {
      var init := reg[..|reg| - 1];
      CollectedIsFilterMap(init, provider, fl);
      forall i | 0 <= i < |init| ensures reg[i] == init[i] { }
    }
  }

  /** Name and sector are copied, the ticker is the stripped provider ticker. */
  lemma RecordFields(c: Company, d: StockData)
    ensures RecordOf(c, d).name == c.name && RecordOf(c, d).sector == c.sector
    ensures MadridTicker(c.ticker) ==> RecordOf(c, d).ticker == TickerCode(c.ticker)
    ensures RecordOf(c, d).price == d.price && RecordOf(c, d).change == d.change &&
      RecordOf(c, d).marketCap == d.marketCap
  {
    if MadridTicker(c.ticker) {
      StripExchangeMadrid(c.ticker);
    }
  }

  /** Distinct Madrid tickers in the registry give distinct display tickers
      in `companies`. */
  lemma CollectedTickersDistinct(reg: seq<Company>, provider: Provider, fl: FloatModel)
    requires DistinctTickers(reg) && AllMadrid(reg)
    ensures forall k, l :: 0 <= k < l < |Collected(reg, provider, fl)| ==>
      Collected(reg, provider, fl)[k].ticker != Collected(reg, provider, fl)[l].ticker
  {
    CollectedIsFilterMap(reg, provider, fl);
    var out, idx := Collected(reg, provider, fl), Survivors(reg, provider, fl);
    forall k, l | 0 <= k < l < |out| ensures out[k].ticker != out[l].ticker {
      if out[k].ticker == out[l].ticker {
        StripExchangeInjective(reg[idx[k]].ticker, reg[idx[l]].ticker);
      }
    }
  }

  /** The loop of `update_data` and the assembly of the output document.
      `lastUpdate` is the clock reading; `pauses` counts `time.sleep(0.5)`. */
  method UpdateData(provider: Provider, indexFetch: IndexFetch, fl: FloatModel, lastUpdate: string)
    returns (snapshot: MarketSnapshot, pauses: nat)
    ensures snapshot == MarketSnapshot(lastUpdate, IndexOrZero(GetIbexIndex(indexFetch, fl)),
                                       Collected(IbexCompanies, provider, fl))
    ensures pauses == |IbexCompanies|
    ensures |snapshot.companies| <= |IbexCompanies|
    ensures forall k, l :: 0 <= k < l < |snapshot.companies| ==>
      snapshot.companies[k].ticker != snapshot.companies[l].ticker
    ensures forall k :: 0 <= k < |snapshot.companies| ==>
      exists i :: 0 <= i < |IbexCompanies| &&
        snapshot.companies[k].ticker == TickerCode(IbexCompanies[i].ticker) &&
        snapshot.companies[k].name == IbexCompanies[i].name &&
        snapshot.companies[k].sector == IbexCompanies[i].sector
  {
    var indexData := GetIbexIndex(indexFetch, fl);
    var companies: seq<CompanyRecord> := [];
    pauses := 0;
    var i := 0;
    while i < |IbexCompanies|
      invariant 0 <= i <= |IbexCompanies|
      invariant companies == Collected(IbexCompanies[..i], provider, fl)
      invariant pauses == i
    {
      var company := IbexCompanies[i];
      var stock, _, _ := GetStockData(provider, company.ticker, DefaultRetries, fl);
      if stock.Some? {
        companies := companies + [RecordOf(company, stock.value)];
      }
      pauses := pauses + 1;
      assert IbexCompanies[..i + 1][..i] == IbexCompanies[..i];
      i := i + 1;
    }
    assert IbexCompanies[..i] == IbexCompanies;
    snapshot := MarketSnapshot(lastUpdate, IndexOrZero(indexData), companies);
    RegistryShape();
    CollectedIsFilterMap(IbexCompanies, provider, fl);
    CollectedTickersDistinct(IbexCompanies, provider, fl);
    var idx := Survivors(IbexCompanies, provider, fl);
    forall k | 0 <= k < |companies|
      ensures companies[k].ticker == TickerCode(IbexCompanies[idx[k]].ticker)
    {
      RecordFields(IbexCompanies[idx[k]], QuoteFor(IbexCompanies[idx[k]], provider, fl).value);
    }
  }
}
