# Stock tracker: price store and window analytics in Dafny

This project models the core of a small stock-quote service. The service
fetches the latest closing price of a ticker from a market-data provider and
appends it to a price table. It then answers three read-only views over that
table: the full history of a ticker, a summary of its latest `n` prices
(count, latest, minimum, maximum, mean, percent change), and the two series
a price chart is drawn from.

Modules, one per part of the program:

- `Wrappers` (`wrappers.dfy`): the `Option` type, used for an absent quote
  and for the nullable fields of a response.
- `Ascii` (`ascii.dfy`): upper-casing of tickers, on ASCII letters only.
- `PriceStore` (`price_store.dfy`): the row of models.py and the operations
  of crud.py. The table is a `Store` object. It holds an append-only
  `seq<Record>` and an identity counter. `AddStock` is a method that
  appends one row. `GetStocks` and `GetStocksLatestN` are functions that
  read the store. Being functions, they cannot change it.
- `Analytics` (`analytics.dfy`): the summary computed over an oldest-first
  list of prices (main.py:111-117).
- `Api` (`api.dfy`): the handlers of main.py. Each one answers `Ok(body)`
  or `NotFound(detail)`.

Modelling choices:

- Prices are `real`, not floating point.
- Timestamps are `int`. The caller passes the insertion time instead of the
  wall clock.
- The provider's answer is an `Option<real>` parameter of `FetchStock`:
  `None` when the provider has no data, otherwise the last close.
- The body of `GetStocksLatestN` sorts with one particular insertion sort.
  Its contract does not fix the order of rows that share a timestamp. It
  only states that the result is newest-first, that it has the right
  length, and that it is a sub-multiset of the newest rows.
- The `n` bounds of `/analysis` and `/chart` (2 to 1000) are checked by the
  web framework before the handler runs. Here they are the precondition
  `ValidWindowSize(n)`.

The service does not tell a provider that has no data apart from a provider
that fails: an empty answer becomes a 404 and any other failure propagates.
The model has only the "no data" path.

## Model

| member | source | states |
|---|---|---|
| `Ascii.UpperChar` | crud.py:7 | a lower-case ASCII letter becomes its upper-case form; any other character is unchanged; the result is never a lower-case letter |
| `Ascii.Upper` | crud.py:7 | same length as the input, and every character is mapped by `UpperChar` |
| `Ascii.UpperIsUpper` | crud.py:7 | an upper-cased ticker has no lower-case ASCII letter left |
| `Ascii.UpperOfUpper` | crud.py:15 | upper-casing a ticker that is already upper-case changes nothing |
| `Ascii.UpperIdempotent` | crud.py:15 | upper-casing twice equals upper-casing once, so a stored ticker survives the query's own upper-casing |
| `PriceStore.Matching` | crud.py:15 | the filter keeps exactly the rows with the given ticker and never adds a row |
| `PriceStore.MatchingCounts` | crud.py:15 | the filter keeps each row with the given ticker exactly as often as it is stored, and drops every other row |
| `PriceStore.MatchingAppend` | crud.py:6-15 | filtering a table that grew by one row gives the old answer, followed by the new row if it matches |
| `PriceStore.InsertNewestFirst` | crud.py:22 | putting a row into a newest-first list keeps it newest-first and adds exactly that row |
| `PriceStore.SortNewestFirst` | crud.py:22 | `ORDER BY timestamp DESC` gives a permutation of its input, with timestamps non-increasing |
| `PriceStore.PrefixIsNewest` | crud.py:22-23 | cutting a newest-first list keeps a newest-first sub-multiset, and no row left out is newer than a kept row |
| `PriceStore.LatestPrefix` | crud.py:19-25 | the first `n` sorted rows are newest-first and the newest of the input; with at most `n` rows, all of them are kept |
| `PriceStore.Store.constructor` | models.py:6-12 | a new table has no rows and a consistent identity counter |
| `PriceStore.Store.AddStock` | crud.py:6-11 | appends exactly one row: ticker `Upper(ticker)`, the given price and timestamp, a fresh id; earlier rows are unchanged; each query now shows the row for every spelling of the ticker, and no other ticker's answer changes |
| `PriceStore.Store.GetStocks` | crud.py:14-15 | returns exactly the stored rows whose ticker is `Upper(ticker)`, each exactly as often as it is stored |
| `PriceStore.Store.GetStocksLatestN` | crud.py:18-25 | returns `min(n, matching)` rows, all stored rows with ticker `Upper(ticker)`, newest first; no matching row left out is newer than a returned one; with at most `n` matches, all of them are returned, with no padding |
| `PriceStore.LookupIgnoresCase` | crud.py:15 | two tickers with the same upper-case form get the same answer from both queries |
| `PriceStore.InsertedRowIsVisible` | crud.py:6-15 | a row inserted as `"aapl"` is found by `"AAPL"`, after everything found before it |
| `Analytics.MinPrice` | main.py:113 | no price of the window is below the minimum |
| `Analytics.MinPriceAttained` | main.py:113 | the minimum is one of the window's prices |
| `Analytics.MaxPrice` | main.py:114 | no price of the window is above the maximum |
| `Analytics.MaxPriceAttained` | main.py:114 | the maximum is one of the window's prices |
| `Analytics.SumConcat` | main.py:115 | the total of two consecutive stretches of prices is the sum of their totals |
| `Analytics.SumAtLeast` | main.py:115 | a lower bound on every price, times the count, is at most the sum |
| `Analytics.SumAtMost` | main.py:115 | the sum is at most an upper bound on every price, times the count |
| `Analytics.MeanPrice` | main.py:115 | the mean lies between the minimum and the maximum |
| `Analytics.MeanAtLeastMin` | main.py:113-115 | sum divided by count is at least the minimum |
| `Analytics.MeanAtMostMax` | main.py:114-115 | sum divided by count is at most the maximum |
| `Analytics.MeanTimesCount` | main.py:115 | the mean times the count is the sum |
| `Analytics.PctChange` | main.py:116-117 | missing exactly when the oldest price is 0; otherwise the value `p` with `p * first == (last - first) * 100` |
| `Analytics.Summarize` | main.py:111-117 | count is the window's length; latest is its last price; every price lies between min and max; min <= mean <= max; mean times count is the sum; percent change is missing exactly when the oldest price is 0, and otherwise is the change from oldest to newest, in percent |
| `Analytics.SummaryAttained` | main.py:113-114 | the reported minimum and maximum are prices of the window |
| `Analytics.SummarizeExample` | main.py:111-117 | prices 100, 110, 90, 120 give count 4, latest 120, min 90, max 120, mean 105, change 20 |
| `Api.DefaultIsValid` | main.py:96-99 | the default window size 20 lies within the accepted bounds 2 to 1000 |
| `Api.NoDataDetail` | main.py:62-65 | the not-found message of `/stock` is the fixed prefix, the upper-cased ticker and a closing quote |
| `Api.NoRecordsDetail` | main.py:80-83 | the not-found message of `/history` (and of `/analysis` and `/chart`, main.py:108 and 145) is the fixed prefix, the upper-cased ticker and a closing quote |
| `Api.DetailsNameTicker` | main.py:62-83 | two requests get the same not-found message exactly when their tickers have the same upper-case form; the no-data and no-records messages never coincide |
| `Api.FetchStock` | main.py:57-71 | without a quote: not-found with the upper-cased ticker in the message, and the table is untouched; with a quote: exactly one row is appended (upper-cased ticker, that price, the given time), and the answer is the upper-cased ticker and the price |
| `Api.ToHistoryItem` | main.py:86 | the history item carries the row's ticker, price and timestamp |
| `Api.HistoryItemForgetsId` | main.py:86 | two rows give the same history item exactly when they differ at most in their id |
| `Api.HistoryItems` | main.py:85-88 | one history item per row, in order, with the row's ticker, price and timestamp |
| `Api.StockHistory` | main.py:77-88 | not-found exactly when no stored row has ticker `Upper(ticker)`; otherwise one item per row of `get_stocks`, in its order, every one with the queried ticker |
| `Api.Reverse` | main.py:103 | same length, and element `i` is element `len - 1 - i` of the input |
| `Api.ReverseSameRows` | main.py:103 | reversing keeps the same rows and the same multiset |
| `Api.ReverseOrders` | main.py:103 | reversing a newest-first list gives an oldest-first one |
| `Api.NoRecordsIffEmpty` | main.py:78-79 | `get_stocks` is empty exactly when no stored row has the ticker |
| `Api.HeadIsNewest` | crud.py:22-23 | the head of a newest-first list of the newest rows is at least as new as every row |
| `Api.NewestComesFirst` | crud.py:18-25 | the first row of `get_stocks_latest_n` is at least as new as every stored row for the ticker |
| `Api.RecentWindow` | main.py:102-103 | the window has `min(n, matching)` rows; they are oldest first and are stored rows of the ticker; they are the newest rows; the window is empty only when `n` is 0 or no row matches; its last row is the newest of all the ticker's rows |
| `Api.Prices` | main.py:111 | one price per window row, in order |
| `Api.Times` | main.py:149 | one timestamp per window row, in order |
| `Api.AnalyzeTicker` | main.py:94-127 | not-found exactly when no row has the ticker, with the upper-cased ticker in the message; otherwise the ticker is upper-cased; the count is the window's size, which is between 1 and `n`; latest is the newest row's price; min, max and mean come from the window's prices; percent change goes from the oldest to the newest row |
| `Api.AnalysisBounds` | main.py:111-117 | every window price lies between the reported min and max; min <= avg <= max; percent change is missing exactly when the oldest window price is 0 |
| `Api.ChartTicker` | main.py:131-150 | not-found exactly when no row has the ticker; otherwise `times` and `prices` are as long as the window (1 to `n` rows), `times` does not decrease, and position `i` of both comes from window row `i` |

## Left out

- The market-data provider call (main.py:58, 67-68) is network I/O. It is the `quote: Option<real>` parameter of `Api.FetchStock`, and a provider failure other than "no data" is not modelled.
- `Api.FetchStock`: returns the unrounded price; `round(price, 2)` (main.py:71) is not modelled.
- `Api.AnalyzeTicker`: reports the unrounded statistics; the `round(x, 2)` of main.py:122-126 is not modelled.
- Floating-point arithmetic: prices are exact reals, so IEEE rounding of the sum, the mean and the percent change is not captured.
- Chart rendering with matplotlib (main.py:152-169) is a foreign library. Only the two series it plots are modelled (`Api.ChartTicker`).
- Web plumbing: routing, `HTTPException`, `StreamingResponse` and the `Query(ge=2, le=1000)` validation (main.py:96-99, 133-136). The bounds are the precondition `ValidWindowSize`, and the default 20 is the constant `DefaultWindow` (`Api.DefaultIsValid`); the default itself is applied by the framework.
- The health-check endpoint `home` (main.py:50-51) returns a constant message and is not modelled.
- Session handling `get_db` (main.py:39-44), `commit`/`refresh` (crud.py:9-10) and table creation (main.py:17) belong to the database engine.
- The `datetime.utcnow` default of models.py:12 reads the wall clock. `PriceStore.Store.AddStock` takes the timestamp as a parameter instead.
- Row identities come from a counter that starts at 1. The database's real scheme for assigning ids is not visible, so the model only promises that each new id is fresh.
- `Ascii.Upper`: maps only ASCII letters, not the full Unicode case mapping of Python's `str.upper`.
- `PriceStore.Store.GetStocksLatestN`: `n` is a natural number. SQL's handling of a negative `LIMIT` is not modelled, because the only callers pass 2 to 1000.
- `PriceStore.Store.GetStocks`: SQL without `ORDER BY` does not fix an order. The model assumes insertion (primary-key) order, which the database does not promise. Four contracts depend on that order: `PriceStore.Store.AddStock` and `PriceStore.MatchingAppend` put the new row last, `PriceStore.InsertedRowIsVisible` finds it after every earlier row, and `Api.StockHistory` lists items in `GetStocks` order. The order-free facts (which rows, how often) are `PriceStore.Store.GetStocks` and `PriceStore.MatchingCounts`.
- The response schemas of schemas.py are the datatypes `StockPrice`, `HistoryItem` and `AnalysisResult`. Pydantic validation is not modelled.
- database.py is not part of this model.
- Concurrent requests interleaving their appends are not modelled. Each call runs alone.
