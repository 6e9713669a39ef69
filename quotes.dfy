/** The quote fetcher, `get_stock_data(ticker, retries=3)`.

    The Yahoo Finance client is replaced by a `Provider`: the response that
    attempt number `a` (counted from 0) for `ticker` gets. Each attempt first
    reads `stock.info`, then `stock.history(period='5d')`; the report also
    counts the attempts made and the 2-second sleeps taken between them. */
module Quotes {

  import opened Wrappers
  import opened Floats

  /** What `info.get('marketCap', 0)` sees: no key (read as 0), a key holding
      `None` (dividing it raises a TypeError inside the `try`), or a number. */
  datatype MarketCap = Missing | Null | Reported(value: real)

  /** One attempt's response: an exception raised by the client, or the
      metadata and the closing prices of the history, oldest first. */
  datatype Fetch = Raised | Fetched(marketCap: MarketCap, closes: seq<real>)

  type Provider = (string, nat) -> Fetch

  /** The dictionary `{price, change, marketCap}` returned on success. */
  datatype StockData = StockData(price: real, change: real, marketCap: real)

  /** What one pass through the body of the `for` loop decides: retry (an
      exception), give up at once (fewer than 2 closes), or return a quote. */
  datatype Step = Transient | Insufficient | Quoted(data: StockData)
  {
    function Result(): Option<StockData>
    {
      if Quoted? then Some(data) else None
    }
  }

  /** The outcome of a call: the value returned, the number of attempts made
      and the number of `time.sleep(2)` calls. */
  datatype Report = Report(result: Option<StockData>, attempts: nat, sleeps: nat)

  /** `retries` as `update_data` passes it (the default argument). */
  const DefaultRetries: int := 3

  const Million: real := 1000000.0

  /** `info.get('marketCap', 0) / 1_000_000`; a `None` value raises instead. */
  function MarketCapMillions(m: MarketCap): (r: real)
    requires !m.Null?
    ensures m.Missing? ==> r == 0.0
    ensures m.Reported? ==> r * Million == m.value
  {
    if m.Reported? then m.value / Million else 0.0
  }

  /** The quote built from the last two closes and the market cap. */
  function QuoteOf(closes: seq<real>, m: MarketCap, fl: FloatModel): (d: StockData)
    requires |closes| >= 2 && !m.Null?
  {
    var current := closes[|closes| - 1];
    var previous := closes[|closes| - 2];
    StockData(fl.round2(current),
              fl.round2(PercentChange(previous, current, fl)),
              fl.round0(MarketCapMillions(m)))
  }

  /** One attempt of the `try` block. */
  function AttemptStep(f: Fetch, fl: FloatModel): (s: Step)
    ensures s.Insufficient? <==> f.Fetched? && |f.closes| < 2
    ensures s.Transient? <==> f.Raised? || (|f.closes| >= 2 && f.marketCap.Null?)
  {
    match f
    case Raised => Transient
    case Fetched(m, closes) =>
      if |closes| < 2 then Insufficient
      else if m.Null? then Transient
      else Quoted(QuoteOf(closes, m, fl))
  }

  predicate IsTransient(provider: Provider, ticker: string, fl: FloatModel, a: nat)
  {
    AttemptStep(provider(ticker, a), fl).Transient?
  }

  /** The first of the attempts `0 .. n-1` that does not end in an exception. */
  function FirstSettled(provider: Provider, ticker: string, fl: FloatModel, n: nat): (r: Option<nat>)
    ensures r.None? ==> forall a :: 0 <= a < n ==> IsTransient(provider, ticker, fl, a)
    ensures r.Some? ==> r.value < n && !IsTransient(provider, ticker, fl, r.value)
    ensures r.Some? ==> forall a :: 0 <= a < r.value ==> IsTransient(provider, ticker, fl, a)
  {
    if n == 0 then None
    else
      var earlier := FirstSettled(provider, ticker, fl, n - 1);
      if earlier.Some? then earlier
      else if IsTransient(provider, ticker, fl, n - 1) then None
      else Some(n - 1)
  }

  /** Reference definition of a call `get_stock_data(ticker, retries)`:
      attempts go on until one does not raise, at most `retries` of them, with
      a sleep after every failed attempt except the last. */
  function StockReport(provider: Provider, ticker: string, retries: int, fl: FloatModel): (r: Report)
    ensures r.attempts == 0 <==> retries <= 0
    ensures retries > 0 ==> r.attempts <= retries
    ensures r.attempts > 0 ==> r.sleeps == r.attempts - 1
    ensures r.attempts == 0 ==> r.sleeps == 0 && r.result.None?
  {
    if retries <= 0 then Report(None, 0, 0)
    else match FirstSettled(provider, ticker, fl, retries)
      case None => Report(None, retries, retries - 1)
      case Some(j) => Report(AttemptStep(provider(ticker, j), fl).Result(), j + 1, j)
  }

  /** `FirstSettled` is determined by the first attempt that does not raise. */
  lemma FirstSettledIs(provider: Provider, ticker: string, fl: FloatModel, n: nat, j: nat)
    requires j < n && !IsTransient(provider, ticker, fl, j)
    requires forall a :: 0 <= a < j ==> IsTransient(provider, ticker, fl, a)
    ensures FirstSettled(provider, ticker, fl, n) == Some(j)
  {
  }

  /** The retry loop of `get_stock_data`. */
  method GetStockData(provider: Provider, ticker: string, retries: int, fl: FloatModel)
    returns (result: Option<StockData>, attempts: nat, sleeps: nat)
    ensures Report(result, attempts, sleeps) == StockReport(provider, ticker, retries, fl)
    ensures result.Some? ==> attempts > 0 && AttemptStep(provider(ticker, attempts - 1), fl) == Quoted(result.value)
    ensures forall a :: 0 <= a < attempts - 1 ==> IsTransient(provider, ticker, fl, a)
  {
    result, attempts, sleeps := None, 0, 0;
    var attempt: nat := 0;
    while attempt < retries
      invariant attempt == 0 || attempt < retries
      invariant attempts == attempt && sleeps == attempt && result == None
      invariant forall a :: 0 <= a < attempt ==> IsTransient(provider, ticker, fl, a)
    {
      attempts := attempts + 1;
      var step := AttemptStep(provider(ticker, attempt), fl);
      match step {
        case Insufficient =>
          FirstSettledIs(provider, ticker, fl, retries, attempt);
          return;
        case Quoted(data) =>
          FirstSettledIs(provider, ticker, fl, retries, attempt);
          result := Some(data);
          return;
        case Transient =>
          if attempt < retries - 1 {
            sleeps := sleeps + 1;
          } else {
            return;
          }
      }
      attempt := attempt + 1;
    }
  }

  /** Fewer than 2 closes on the first attempt: `None` after one attempt and
      no sleep. */
  lemma InsufficientFirstAttempt(provider: Provider, ticker: string, retries: int, fl: FloatModel)
    requires retries >= 1
    requires provider(ticker, 0).Fetched? && |provider(ticker, 0).closes| < 2
    ensures StockReport(provider, ticker, retries, fl) == Report(None, 1, 0)
  {
    FirstSettledIs(provider, ticker, fl, retries, 0);
  }

  /** `k` exceptions, then a quote on attempt `k + 1 <= retries`: that quote,
      after exactly `k + 1` attempts and `k` sleeps. */
  lemma SucceedsAfterFailures(provider: Provider, ticker: string, retries: int, fl: FloatModel, k: nat, d: StockData)
    requires k + 1 <= retries
    requires forall a :: 0 <= a < k ==> provider(ticker, a).Raised?
    requires AttemptStep(provider(ticker, k), fl) == Quoted(d)
    ensures StockReport(provider, ticker, retries, fl) == Report(Some(d), k + 1, k)
  {
    FirstSettledIs(provider, ticker, fl, retries, k);
  }

  /** Every attempt raises: `None`, `retries` attempts, `retries - 1` sleeps
      (no sleep after the last attempt). */
  lemma AllAttemptsRaise(provider: Provider, ticker: string, retries: int, fl: FloatModel)
    requires retries >= 1
    requires forall a :: 0 <= a < retries ==> provider(ticker, a).Raised?
    ensures StockReport(provider, ticker, retries, fl) == Report(None, retries, retries - 1)
  {
  }

  /** `range(retries)` is empty: no attempt and `None`. */
  lemma NoAttempts(provider: Provider, ticker: string, retries: int, fl: FloatModel)
    requires retries <= 0
    ensures StockReport(provider, ticker, retries, fl) == Report(None, 0, 0)
  {
  }

  /** A call returns a quote exactly when some attempt within the budget
      yields one and every attempt before it raised; the quote is that one. */
  lemma ResultCharacterization(provider: Provider, ticker: string, retries: int, fl: FloatModel)
    ensures StockReport(provider, ticker, retries, fl).result.Some? <==>
      exists j :: 0 <= j < retries && AttemptStep(provider(ticker, j), fl).Quoted? &&
        forall a :: 0 <= a < j ==> IsTransient(provider, ticker, fl, a)
    ensures forall j :: (0 <= j < retries && AttemptStep(provider(ticker, j), fl).Quoted? &&
        (forall a :: 0 <= a < j ==> IsTransient(provider, ticker, fl, a))) ==>
      StockReport(provider, ticker, retries, fl).result == Some(AttemptStep(provider(ticker, j), fl).data)
  {
    forall j | 0 <= j < retries && AttemptStep(provider(ticker, j), fl).Quoted? &&
        (forall a :: 0 <= a < j ==> IsTransient(provider, ticker, fl, a))
      ensures StockReport(provider, ticker, retries, fl).result == Some(AttemptStep(provider(ticker, j), fl).data)
    {
      FirstSettledIs(provider, ticker, fl, retries, j);
    }
  }

  /** The fields of a successful quote, stated without the helper functions:
      last close, percent change of the last two closes, market cap in
      millions (0 when the key is missing), each through the float rounding. */
  lemma QuoteFields(closes: seq<real>, m: MarketCap, fl: FloatModel)
    requires |closes| >= 2 && !m.Null?
    ensures QuoteOf(closes, m, fl).price == fl.round2(closes[|closes| - 1])
    ensures closes[|closes| - 2] != 0.0 ==>
      QuoteOf(closes, m, fl).change ==
        fl.round2((closes[|closes| - 1] - closes[|closes| - 2]) / closes[|closes| - 2] * 100.0)
    ensures QuoteOf(closes, m, fl).marketCap ==
      fl.round0(if m.Reported? then m.value / 1000000.0 else 0.0)
  {
    if closes[|closes| - 2] != 0.0 {
      PercentChangeFormula(closes[|closes| - 2], closes[|closes| - 1], fl);
    }
  }
}
