# IBEX 35 data refresh, modelled in Dafny

This project models `update_ibex_data.py`. That batch script fetches end-of-day quotes for the 35 IBEX 35 constituents and for the index itself from Yahoo Finance. It derives a price, a percent change and a market cap in millions for each company, and a value, an absolute change and a percent change for the index. It then writes one snapshot document, `ibex_data.json`.

The model has one module per component:

- `Wrappers` (wrappers.dfy) holds `Option`, which stands for a Python value that is a dictionary or `None`.
- `Floats` (floats.dfy) holds the float behaviour the script depends on. `FloatModel` bundles `round(x, 2)`, `round(x, 0)` and the result of a division by a zero close. These are function parameters, so every result holds whatever rounding does. Prices and every intermediate subtraction, division and scaling are exact `real` arithmetic.
- `Registry` (registry.dfy) holds `IBEX_35_COMPANIES` and `StripExchange`, which is Python's `ticker.replace('.MC', '')`. It removes every non-overlapping ".MC", not only a trailing one.
- `Quotes` (quotes.dfy) models `get_stock_data`. The Yahoo Finance client becomes a `Provider`: a function from (ticker, attempt number) to that attempt's response. A response is an exception, or the `marketCap` metadata plus the closing prices. `GetStockData` is the `for attempt in range(retries)` loop. It returns the result, the number of attempts made and the number of 2-second sleeps. It is proved equal to the reference definition `StockReport`.
- `IbexIndex` (ibexindex.dfy) models `get_ibex_index`, its single response `IndexFetch`, and the zero fallback.
- `Snapshot` (snapshot.dfy) models `update_data`. `UpdateData` is the loop over the registry that appends to `companies_data`. It is proved to yield `Collected`, a filter-map over the registry, plus the index record or the zero record. The clock reading for `lastUpdate` is a parameter, and `pauses` counts the 0.5-second sleeps.

One behaviour follows from the order in which the code evaluates things. `info.get('marketCap', 0)` can find the key holding `None`. Dividing that by 1 000 000 raises a `TypeError` inside the `try`, so the attempt is retried like a network error. `MarketCap.Null` models this case, and `AttemptStep` classifies it as `Transient`.

## Model

| member | source | states |
|---|---|---|
| Floats.Quotient | update_ibex_data.py:67 | the division, as real division when the divisor is non-zero: the quotient times the divisor gives back the dividend (the result for a zero divisor is left to the float model) |
| Floats.PercentChange | update_ibex_data.py:67 | with a non-zero previous close, applying the percent change to the previous close gives back the current close |
| Floats.PercentChangeFormula | update_ibex_data.py:67 | with a non-zero previous close the change is `(current - previous) / previous * 100`; it is zero iff the closes are equal, and (for a positive previous close) positive iff the price rose |
| Registry.StripExchange | update_ibex_data.py:136 | `replace('.MC', '')` never lengthens a string and removes a multiple of 3 characters |
| Registry.StripExchangeNoDot | update_ibex_data.py:136 | a string without '.' is returned unchanged |
| Registry.StripExchangeInner | update_ibex_data.py:136 | a ".MC" after a dot-free prefix is removed wherever it stands, not only at the end, and the rest of the string is stripped in turn |
| Registry.StripExchangeShrinks | update_ibex_data.py:136 | any occurrence of ".MC" makes the result strictly shorter |
| Registry.StripExchangeNoSuffix | update_ibex_data.py:136 | a string with no ".MC" anywhere is returned unchanged |
| Registry.StripExchangeFixed | update_ibex_data.py:136 | `replace('.MC', '')` leaves a string unchanged iff the string holds no ".MC" at any position |
| Registry.StripExchangeMadrid | update_ibex_data.py:136 | on a dot-free code followed by ".MC", removing every ".MC" is dropping the last 3 characters |
| Registry.StripExchangeInjective | update_ibex_data.py:136 | two Madrid tickers with the same display form are equal |
| Registry.IbexCompanies | update_ibex_data.py:13-49 | the constant `IBEX_35_COMPANIES`: the 35 (name, ticker, sector) entries in source order; its invariants are the lemmas below |
| Registry.RegistrySuffixes | update_ibex_data.py:13-49 | every registry ticker is longer than 3 characters and ends in ".MC" |
| Registry.RegistryCodesDotFree | update_ibex_data.py:13-49 | no registry ticker has a '.' before its suffix |
| Registry.RegistryDistinct | update_ibex_data.py:13-49 | the registry tickers are pairwise distinct |
| Registry.RegistryShape | update_ibex_data.py:13-49 | the registry has 35 entries with distinct tickers, each a non-empty dot-free code followed by ".MC" |
| Registry.RegistryDisplayTickers | update_ibex_data.py:136 | for every registry entry the display ticker is its ticker minus the trailing 3 characters, and display tickers are pairwise distinct |
| Quotes.MarketCapMillions | update_ibex_data.py:70 | the market cap in millions is 0 when the key is missing, and otherwise times 1 000 000 gives back the reported value |
| Quotes.AttemptStep | update_ibex_data.py:56-76 | an attempt gives up for good exactly when a history of fewer than 2 rows arrives; it is retried exactly when the client raises or a 2-row history comes with a `None` market cap; otherwise it yields a quote |
| Quotes.FirstSettled | update_ibex_data.py:55-84 | finds the first attempt below the bound that does not raise, with every earlier attempt raising, or reports that all of them raise |
| Quotes.StockReport | update_ibex_data.py:51-86 | no attempt happens iff `retries <= 0`; at most `retries` attempts; one sleep fewer than the attempts; no attempt means `None` |
| Quotes.FirstSettledIs | update_ibex_data.py:55-84 | the first attempt that does not raise determines where the loop stops |
| Quotes.GetStockData | update_ibex_data.py:51-86 | the loop's result, attempt count and sleep count equal `StockReport`; a returned quote is the last attempt's quote, and every earlier attempt raised |
| Quotes.InsufficientFirstAttempt | update_ibex_data.py:55-63 | fewer than 2 closes on the first attempt gives `None` after exactly 1 attempt and 0 sleeps |
| Quotes.SucceedsAfterFailures | update_ibex_data.py:55-81 | k exceptions followed by a quote, with k + 1 <= retries, give that quote after k + 1 attempts and k sleeps |
| Quotes.AllAttemptsRaise | update_ibex_data.py:78-84 | when all `retries` attempts raise, the result is `None` after `retries` attempts and `retries - 1` sleeps |
| Quotes.NoAttempts | update_ibex_data.py:55-86 | `retries <= 0` gives `None` with no attempt and no sleep |
| Quotes.ResultCharacterization | update_ibex_data.py:55-84 | a quote is returned iff some attempt within the budget yields one after only exceptions, and then it is that attempt's quote |
| Quotes.QuoteOf | update_ibex_data.py:65-76 | the dictionary built on success: rounded last close, rounded percent change of the last two closes, rounded market cap in millions; its meaning is stated by `Quotes.QuoteFields` |
| Quotes.QuoteFields | update_ibex_data.py:65-76 | a quote holds the rounded last close, the rounded `(cur - prev) / prev * 100` of the last two closes, and the rounded market cap / 1 000 000 (0 when missing) |
| IbexIndex.GetIbexIndex | update_ibex_data.py:88-111 | the index fetch gives `None` exactly when the client raises or fewer than 2 closes arrive |
| IbexIndex.IndexFields | update_ibex_data.py:96-108 | a fetched index holds the rounded last close, the rounded signed delta `cur - prev`, and the rounded `(cur - prev) / prev * 100` |
| IbexIndex.IndexPercentIsPercentChange | update_ibex_data.py:99-102 | the index percent has the same formula as a company's percent change on the same closes |
| IbexIndex.IndexOrZero | update_ibex_data.py:152-156 | a missing index becomes the zero record; a present one passes through |
| IbexIndex.IndexFallback | update_ibex_data.py:152-156 | a failed index fetch yields exactly `{0, 0, 0}` in the output; a successful one yields the fetched record unchanged |
| Snapshot.QuoteFor | update_ibex_data.py:131 | the result of `get_stock_data(company['ticker'])` with the default 3 retries, i.e. `StockReport(...).result` |
| Snapshot.RecordOf | update_ibex_data.py:134-141 | the record appended for a successful company; its fields are stated by `Snapshot.RecordFields` |
| Snapshot.Collected | update_ibex_data.py:126-144 | `companies_data` after the loop over a registry: the records of the successful fetches in registry order; its meaning is stated by `Snapshot.CollectedIsFilterMap` |
| Snapshot.CollectedIsFilterMap | update_ibex_data.py:126-144 | `companies` is no longer than the registry and is its ordered subsequence of successful fetches: record k comes from the k-th surviving position (strictly increasing) with that entry's descriptor and quote, and a position survives iff its fetch succeeded |
| Snapshot.RecordFields | update_ibex_data.py:134-141 | a record copies name, sector and the three quote fields, and shows a Madrid ticker without its ".MC" |
| Snapshot.CollectedTickersDistinct | update_ibex_data.py:126-144 | distinct Madrid tickers in the registry give distinct tickers in `companies` |
| Snapshot.UpdateData | update_ibex_data.py:113-169 | the snapshot is the clock reading, the index or zero record and the filter-map of the registry; 35 pauses; at most 35 companies with distinct tickers, each the code, name and sector of a registry entry |

## Left out

- The Yahoo Finance calls `yf.Ticker`, `.info` and `.history`: foreign network I/O, replaced by the `Provider` and `IndexFetch` parameters.
- Python `round` is left abstract in `FloatModel`. The intermediate IEEE double arithmetic (the subtraction, the division, the `* 100` and the `/ 1_000_000`) is modelled as exact real arithmetic, so the rounding of each float operation is not captured, and the inverse facts of `Floats.Quotient`, `Floats.PercentChange` and `Quotes.MarketCapMillions` hold for the model, not for doubles. Division by a zero previous close is float behaviour too: numpy answers with an infinity or NaN rather than an exception. The model stands that value in by `FloatModel.divByZero`, and the formula lemmas assume a non-zero previous close.
- Floats.PercentChangeFormula, Quotes.QuoteFields, IbexIndex.IndexFields: these state the percent formula only for a non-zero previous close, because the division-by-zero result is float behaviour.
- The durations of `time.sleep(2)` and `time.sleep(0.5)`: only the number of sleeps is modelled.
- `datetime.now()`: the `lastUpdate` value is a parameter.
- Console `print` output, and the JSON file write with `ensure_ascii=False` and `indent=2`: I/O. The model ends at the `MarketSnapshot` value that is serialized.
- The top-level `KeyboardInterrupt` handler and the re-raise of other exceptions (lines 171-178): process-level exception plumbing.
- NaN closes and non-numeric `marketCap` values other than `None` are not modelled separately. A value that makes the division raise behaves like `MarketCap.Null`.
