/**
 * The request handlers of main.py, past routing and parameter validation.
 * A handler answers `Ok` with the response body, or `NotFound` with the
 * message its 404 carries. The quote provider's answer and the insertion
 * time are parameters.
 */
module Api {
  import opened Wrappers
  import opened Ascii
  import opened PriceStore
  import opened Analytics

  datatype Response<T> = Ok(value: T) | NotFound(detail: string)

  /** Body of `/stock/{ticker}`. */
  datatype StockPrice = StockPrice(ticker: string, price: real)

  /** One element of the body of `/history/{ticker}`. */
  datatype HistoryItem = HistoryItem(ticker: string, price: real, timestamp: int)

  /** Body of `/analysis/{ticker}`; the price fields are nullable in the schema. */
  datatype AnalysisResult = AnalysisResult(
    ticker: string,
    count: nat,
    latestPrice: Option<real>,
    minPrice: Option<real>,
    maxPrice: Option<real>,
    avgPrice: Option<real>,
    pctChange: Option<real>)

  /** The two parallel lists `chart_ticker` plots: times on one axis, prices on the other. */
  datatype ChartSeries = ChartSeries(times: seq<int>, prices: seq<real>)

  /** Bounds and default of the `n` query parameter of `/analysis` and `/chart`. */
  const MinWindow: nat := 2
  const MaxWindow: nat := 1000
  const DefaultWindow: nat := 20

  predicate ValidWindowSize(n: int) {
    MinWindow <= n <= MaxWindow
  }

  /** The default window size is one the query accepts. */
  lemma DefaultIsValid()
    ensures ValidWindowSize(DefaultWindow)
  {
  }

  const NoDataPrefix := "No data found for ticker '"
  const NoRecordsPrefix := "No records found for ticker '"

  /** The message `prefix` quotes `name` in: the prefix, the name, a closing quote. */
  predicate Quotes(d: string, prefix: string, name: string) {
    && |d| == |prefix| + |name| + 1
    && d[..|prefix|] == prefix
    && d[|prefix|..|d| - 1] == name
    && d[|d| - 1] == '\''
  }

  /** The 404 message of `/stock` when the provider has no data: it quotes the upper-cased ticker. */
  function NoDataDetail(ticker: string): (d: string)
    ensures Quotes(d, NoDataPrefix, Upper(ticker))
  {
    NoDataPrefix + Upper(ticker) + "'"
  }

  /** The 404 message of the read-only views when no row has the ticker: it quotes the upper-cased ticker. */
  function NoRecordsDetail(ticker: string): (d: string)
    ensures Quotes(d, NoRecordsPrefix, Upper(ticker))
  {
    NoRecordsPrefix + Upper(ticker) + "'"
  }

  /**
   * Two requests get the same not-found message exactly when their tickers
   * have the same upper-case form, and the two kinds of message never agree.
   */
  lemma DetailsNameTicker(t1: string, t2: string)
    ensures NoDataDetail(t1) == NoDataDetail(t2) <==> Upper(t1) == Upper(t2)
    ensures NoRecordsDetail(t1) == NoRecordsDetail(t2) <==> Upper(t1) == Upper(t2)
    ensures NoDataDetail(t1) != NoRecordsDetail(t2)
  {
    var d1, d2 := NoDataDetail(t1), NoDataDetail(t2);
    if d1 == d2 {
      assert Upper(t1) == d1[|NoDataPrefix|..|d1| - 1];
    }
    var e1, e2 := NoRecordsDetail(t1), NoRecordsDetail(t2);
    if e1 == e2 {
      assert Upper(t1) == e1[|NoRecordsPrefix|..|e1| - 1];
    }
    assert NoDataDetail(t1)[3] != NoRecordsDetail(t2)[3];
  }

  /** No stored row has the ticker `Upper(ticker)`. */
  ghost predicate NoRecords(store: Store, ticker: string)
    reads store
  {
    forall x :: x in store.rows ==> x.ticker != Upper(ticker)
  }

  /**
   * `fetch_stock`: with no quote, answers not-found and leaves the store as
   * it was; with a quote, stores one row for it and answers with the
   * upper-cased ticker and the price.
   */
  method FetchStock(store: Store, ticker: string, quote: Option<real>, now: int)
    returns (resp: Response<StockPrice>)
    requires store.Valid()
    modifies store
    ensures store.Valid()
    ensures quote.None? ==> resp == NotFound(NoDataDetail(ticker))
    ensures quote.None? ==> store.rows == old(store.rows) && store.nextId == old(store.nextId)
    ensures quote.Some? ==> resp == Ok(StockPrice(Upper(ticker), quote.value))
    ensures quote.Some? ==>
      && |store.rows| == |old(store.rows)| + 1
      && store.rows[..|old(store.rows)|] == old(store.rows)
      && var r := store.rows[|old(store.rows)|];
         r.ticker == Upper(ticker) && r.price == quote.value && r.timestamp == now
  {
    if quote.None? {
      resp := NotFound(NoDataDetail(ticker));
      return;
    }
    var r := store.AddStock(ticker, quote.value, now);
    assert store.rows[..|old(store.rows)|] == old(store.rows);
    resp := Ok(StockPrice(Upper(ticker), quote.value));
  }

  /** One element of the history body: the row's ticker, price and timestamp. */
  function ToHistoryItem(r: Record): (h: HistoryItem)
    ensures h.ticker == r.ticker && h.price == r.price && h.timestamp == r.timestamp
  {
    HistoryItem(r.ticker, r.price, r.timestamp)
  }

  /** The history body drops only the row's identity: two rows give the same item exactly when they differ at most in id. */
  lemma HistoryItemForgetsId(a: Record, b: Record)
    ensures ToHistoryItem(a) == ToHistoryItem(b) <==> a.(id := b.id) == b
  {
  }

  /** One history item per record, in the records' order. */
  function HistoryItems(records: seq<Record>): (items: seq<HistoryItem>)
    ensures |items| == |records|
    ensures forall i :: 0 <= i < |records| ==> items[i] == ToHistoryItem(records[i])
  {
    seq(|records|, i requires 0 <= i < |records| => ToHistoryItem(records[i]))
  }

  /**
   * `stock_history`: every stored row for `Upper(ticker)`, in the order
   * `get_stocks` gives them, or not-found when there is none.
   */
  function StockHistory(store: Store, ticker: string): (r: Response<seq<HistoryItem>>)
    reads store
    ensures r.NotFound? <==> NoRecords(store, ticker)
    ensures r.NotFound? ==> r.detail == NoRecordsDetail(ticker)
    ensures r.Ok? ==>
      && |r.value| == |store.GetStocks(ticker)|
      && forall i :: 0 <= i < |r.value| ==>
           var x := store.GetStocks(ticker)[i];
           r.value[i] == HistoryItem(x.ticker, x.price, x.timestamp) && x.ticker == Upper(ticker)
  {
    var records := store.GetStocks(ticker);
    NoRecordsIffEmpty(store, ticker);
    if records == [] then
      NotFound(NoRecordsDetail(ticker))
    else
      assert forall i :: 0 <= i < |records| ==> records[i] in records;
      Ok(HistoryItems(records))
  }

  /** The elements of `s` from last to first. */
  function Reverse<T>(s: seq<T>): (r: seq<T>)
    ensures |r| == |s|
    ensures forall i :: 0 <= i < |s| ==> r[i] == s[|s| - 1 - i]
  {
    if s == [] then [] else Reverse(s[1..]) + [s[0]]
  }

  /** Reversing keeps the same rows. */
  lemma ReverseSameRows<T>(s: seq<T>)
    ensures multiset(Reverse(s)) == multiset(s)
    ensures forall x :: x in Reverse(s) <==> x in s
  {
    if s != [] {
      ReverseSameRows(s[1..]);
      assert s == [s[0]] + s[1..];
    }
  }

  /** Reversing a newest-first sequence gives an oldest-first one. */
  lemma ReverseOrders(s: seq<Record>)
    requires NewestFirst(s)
    ensures OldestFirst(Reverse(s))
  {
  }

  /**
   * The window `analyze_ticker` and `chart_ticker` work on: the latest `n`
   * rows for the ticker, oldest first. It is empty only when `n` is zero or
   * no row has the ticker, and its last row is the newest of them all.
   */
  function RecentWindow(store: Store, ticker: string, n: nat): (w: seq<Record>)
    reads store
    ensures |w| == Min(n, |store.GetStocks(ticker)|)
    ensures OldestFirst(w)
    ensures forall x :: x in w ==> x in store.rows && x.ticker == Upper(ticker)
    ensures multiset(w) <= multiset(store.GetStocks(ticker))
    ensures forall x, y :: x in multiset(store.GetStocks(ticker)) - multiset(w) && y in w ==> x.timestamp <= y.timestamp
    ensures w == [] <==> n == 0 || NoRecords(store, ticker)
    ensures w != [] ==> forall x :: x in store.rows && x.ticker == Upper(ticker) ==> x.timestamp <= w[|w| - 1].timestamp
  {
    var latest := store.GetStocksLatestN(ticker, n);
    ReverseSameRows(latest);
    ReverseOrders(latest);
    NoRecordsIffEmpty(store, ticker);
    if latest != [] then
      NewestComesFirst(store, ticker, n);
      Reverse(latest)
    else
      Reverse(latest)
  }

  lemma NoRecordsIffEmpty(store: Store, ticker: string)
    ensures NoRecords(store, ticker) <==> store.GetStocks(ticker) == []
  {
    if store.GetStocks(ticker) != [] {
      assert store.GetStocks(ticker)[0] in store.GetStocks(ticker);
    }
  }

  /**
   * When the rows of `m` left out of `r` are no newer than those kept, and
   * `r` is newest first, the head of `r` is at least as new as every row of `m`.
   */
  lemma HeadIsNewest(m: seq<Record>, r: seq<Record>)
    requires r != [] && NewestFirst(r)
    requires forall x, y :: x in multiset(m) - multiset(r) && y in r ==> x.timestamp <= y.timestamp
    ensures forall x :: x in m ==> x.timestamp <= r[0].timestamp
  {
    forall x | x in m ensures x.timestamp <= r[0].timestamp {
      if x in r {
        var i :| 0 <= i < |r| && r[i] == x;
      } else {
        assert x in multiset(m) - multiset(r);
        assert r[0] in r;
      }
    }
  }

  /** The first row of `get_stocks_latest_n` is at least as new as every row for the ticker. */
  lemma NewestComesFirst(store: Store, ticker: string, n: nat)
    requires n > 0 && store.GetStocks(ticker) != []
    ensures store.GetStocksLatestN(ticker, n) != []
    ensures forall x :: x in store.rows && x.ticker == Upper(ticker) ==>
      x.timestamp <= store.GetStocksLatestN(ticker, n)[0].timestamp
  {
    HeadIsNewest(store.GetStocks(ticker), store.GetStocksLatestN(ticker, n));
  }

  /** The price of each row, in the rows' order. */
  function Prices(rows: seq<Record>): (p: seq<real>)
    ensures |p| == |rows|
    ensures forall i :: 0 <= i < |rows| ==> p[i] == rows[i].price
  {
    seq(|rows|, i requires 0 <= i < |rows| => rows[i].price)
  }

  /** The timestamp of each row, in the rows' order. */
  function Times(rows: seq<Record>): (t: seq<int>)
    ensures |t| == |rows|
    ensures forall i :: 0 <= i < |rows| ==> t[i] == rows[i].timestamp
  {
    seq(|rows|, i requires 0 <= i < |rows| => rows[i].timestamp)
  }

  /**
   * `analyze_ticker`: not-found when no row has the ticker; otherwise the
   * statistics of the recent window, oldest first: its size (at most `n`),
   * its newest price, and the minimum, maximum, mean and percent change of
   * its prices (their bounds are `AnalysisBounds`).
   */
  function AnalyzeTicker(store: Store, ticker: string, n: int): (r: Response<AnalysisResult>)
    reads store
    requires ValidWindowSize(n)
    ensures r.NotFound? <==> NoRecords(store, ticker)
    ensures r.NotFound? ==> r.detail == NoRecordsDetail(ticker)
    ensures r.Ok? ==>
      var w, a := RecentWindow(store, ticker, n), r.value;
      && 0 < |w| && a.count == |w| <= n
      && a.ticker == Upper(ticker)
      && a.latestPrice == Some(w[|w| - 1].price)
      && a.minPrice == Some(MinPrice(Prices(w)))
      && a.maxPrice == Some(MaxPrice(Prices(w)))
      && a.avgPrice == Some(MeanPrice(Prices(w)))
      && a.pctChange == PctChange(w[0].price, w[|w| - 1].price)
  {
    var w := RecentWindow(store, ticker, n);
    if w == [] then
      NotFound(NoRecordsDetail(ticker))
    else
      var s := Summarize(Prices(w));
      Ok(AnalysisResult(Upper(ticker), s.count, Some(s.latest), Some(s.low), Some(s.high), Some(s.mean), s.pctChange))
  }

  /**
   * Every price of the analysed window lies between the reported minimum
   * and maximum, so does the reported mean, and the percent change is
   * missing exactly when the oldest price of the window is zero.
   */
  lemma AnalysisBounds(store: Store, ticker: string, n: int)
    requires ValidWindowSize(n)
    requires AnalyzeTicker(store, ticker, n).Ok?
    ensures var w, a := RecentWindow(store, ticker, n), AnalyzeTicker(store, ticker, n).value;
      && (forall x :: x in w ==> a.minPrice.value <= x.price <= a.maxPrice.value)
      && a.minPrice.value <= a.avgPrice.value <= a.maxPrice.value
      && (a.pctChange.None? <==> w[0].price == 0.0)
  {
    var w := RecentWindow(store, ticker, n);
    var prices := Prices(w);
    forall x | x in w ensures x.price in prices {
      var i :| 0 <= i < |w| && w[i] == x;
      assert prices[i] == x.price;
    }
  }

  /**
   * The series `chart_ticker` plots: not-found when no row has the ticker;
   * otherwise times and prices of the recent window row by row, oldest first.
   */
  function ChartTicker(store: Store, ticker: string, n: int): (r: Response<ChartSeries>)
    reads store
    requires ValidWindowSize(n)
    ensures r.NotFound? <==> NoRecords(store, ticker)
    ensures r.NotFound? ==> r.detail == NoRecordsDetail(ticker)
    ensures r.Ok? ==>
      var w, c := RecentWindow(store, ticker, n), r.value;
      && 0 < |w| <= n
      && |c.times| == |w| && |c.prices| == |w|
      && (forall i, j :: 0 <= i < j < |c.times| ==> c.times[i] <= c.times[j])
      && (forall i :: 0 <= i < |w| ==> c.times[i] == w[i].timestamp && c.prices[i] == w[i].price)
  {
    var w := RecentWindow(store, ticker, n);
    if w == [] then NotFound(NoRecordsDetail(ticker))
    else Ok(ChartSeries(Times(w), Prices(w)))
  }
}
