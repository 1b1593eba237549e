/**
 * The stateful parts of app/src/app/components/EquityTracker.jsx: the loop
 * of `processTransactions` that builds the chart series, the merge of fetched
 * prices in `fetchStockPrices`, and the CSV checks and row mapping of
 * `handleCSVUpload`.
 */
module EquityTracker {
  import opened Wrappers
  import opened Text
  import opened EquitySeries

  type RawRow = map<string, string>

  // ----- The date axis (lines 78-85) -----

  /** Inserts a new date into a strictly ascending list of dates. */
  function InsertDate(ds: seq<string>, d: string): (r: seq<string>)
    requires d !in ds
    ensures |r| == |ds| + 1
    ensures forall x :: x in r <==> x in ds || x == d
  {
    if ds == [] then [d]
    else if Below(d, ds[0]) then [d] + ds
    else
      assert forall x :: x in ds <==> x == ds[0] || x in ds[1..] by {
        assert ds == [ds[0]] + ds[1..];
      }
      [ds[0]] + InsertDate(ds[1..], d)
  }

  lemma {:induction false} InsertDateAscending(ds: seq<string>, d: string)
    requires d !in ds && StrictlyAscending(ds)
    ensures StrictlyAscending(InsertDate(ds, d))
  {
    if ds != [] {
      var r := InsertDate(ds, d);
      if Below(d, ds[0]) {
        forall i, j | 0 <= i < j < |r| ensures Below(r[i], r[j]) {
          if i == 0 && j > 1 {
            AtMostTransitive(d, ds[0], ds[j - 1]);
            assert ds[j - 1] in ds;
          }
        }
      } else {
        BelowTrichotomy(d, ds[0]);
        InsertDateAscending(ds[1..], d);
        var tail := InsertDate(ds[1..], d);
        forall j | 0 <= j < |tail| ensures Below(ds[0], tail[j]) {
          assert tail[j] in tail;
          if tail[j] != d {
            var k :| 0 <= k < |ds[1..]| && ds[1..][k] == tail[j];
            assert ds[k + 1] == tail[j];
          }
        }
      }
    }
  }

  /**
   * `allDates`: every transaction date and every date of every symbol's price
   * series, then `Array.from(allDates).sort()`.
   */
  method CollectDates(sorted: seq<Transaction>, prices: PriceMap) returns (dates: seq<string>)
    ensures StrictlyAscending(dates)
    ensures forall d :: d in dates <==> d in DateSet(sorted, prices)
  {
    var all: set<string> := {};
    for i := 0 to |sorted|
      invariant all == set t | t in sorted[..i] :: t.date
    {
      assert sorted[..i + 1] == sorted[..i] + [sorted[i]];
      all := all + {sorted[i].date};
    }
    assert sorted[..|sorted|] == sorted;
    var pending := prices.Keys;
    while pending != {}
      invariant pending <= prices.Keys
      invariant all == (set t | t in sorted :: t.date) + (set k, d | k in prices.Keys - pending && d in prices[k] :: d)
      decreases pending
    {
      var k :| k in pending;
      all := all + prices[k].Keys;
      pending := pending - {k};
    }
    dates := [];
    var rest := all;
    while rest != {}
      invariant rest <= all
      invariant StrictlyAscending(dates)
      invariant forall d :: d in dates <==> d in all && d !in rest
      decreases rest
    {
      var d :| d in rest;
      InsertDateAscending(dates, d);
      dates := InsertDate(dates, d);
      rest := rest - {d};
    }
  }

  // ----- processTransactions (lines 71-153) -----

  /** The dates of a chart, in order. */
  function DatesOf(chart: seq<ChartPoint>): (ds: seq<string>)
    ensures |ds| == |chart|
    ensures forall i :: 0 <= i < |chart| ==> ds[i] == chart[i].date
  {
    seq(|chart|, i requires 0 <= i < |chart| => chart[i].date)
  }

  /**
   * The body of the `dayTransactions.forEach` callback: moves the position in
   * the transaction's symbol by its signed quantity, adding the key when it
   * is new.
   */
  method ApplyTransaction(order0: seq<string>, shares0: map<string, real>, t: Transaction)
    returns (order: seq<string>, shares: map<string, real>)
    requires WellFormed(Positions(order0, shares0))
    ensures Positions(order, shares) == Apply(Positions(order0, shares0), t)
  {
    var delta := if t.order == "Buy" then t.quantity else -t.quantity;
    if t.ticker in shares0 {
      order, shares := order0, shares0[t.ticker := shares0[t.ticker] + delta];
    } else {
      order, shares := order0 + [t.ticker], shares0[t.ticker := delta];
    }
  }

  /**
   * `dayTransactions.forEach(...)`: applies the transactions of `sorted`
   * dated `date`, in order, to the positions object.
   */
  method ApplyDay(sorted: seq<Transaction>, date: string, order0: seq<string>, shares0: map<string, real>,
                  ghost prior: seq<Transaction>)
    returns (order: seq<string>, shares: map<string, real>)
    requires Positions(order0, shares0) == Replay(prior)
    ensures Positions(order, shares) == Replay(prior + DatedOn(sorted, date))
  {
    order, shares := order0, shares0;
    ghost var done := prior;
    assert DatedOn(sorted[..0], date) == [] by {
      assert sorted[..0] == [];
    }
    for j := 0 to |sorted|
      invariant done == prior + DatedOn(sorted[..j], date)
      invariant Positions(order, shares) == Replay(done)
    {
      var t := sorted[j];
      DatedOnStep(prior, sorted, j, date);
      if t.date == date {
        ReplaySnoc(done, t);
        order, shares := ApplyTransaction(order, shares, t);
        done := done + [t];
      } else {
        assert done + [] == done;
      }
    }
    assert sorted[..|sorted|] == sorted;
  }

  /**
   * The price of `stock` on `date`: the stored close unless it is missing or
   * 0, then the price of the last trade in `stock` dated up to `date`, else 0.
   */
  method StockPrice(sorted: seq<Transaction>, prices: PriceMap, stock: string, date: string) returns (stockPrice: real)
    ensures stockPrice == PriceAt(sorted, prices, stock, date)
  {
    stockPrice := 0.0;
    if stock in prices && date in prices[stock] {
      stockPrice := prices[stock][date];
    }
    if stockPrice == 0.0 {
      var lastTransaction := LastTrade(sorted, stock, date);
      if lastTransaction.Some? {
        stockPrice := lastTransaction.value.price;
      }
    }
  }

  /** `shares * stockPrice` for one nonzero position. */
  method StockEquity(sorted: seq<Transaction>, prices: PriceMap, date: string, shares: map<string, real>, stock: string)
    returns (equity: real)
    requires stock in shares
    ensures equity == EquityOf(shares, stock, sorted, prices, date)
  {
    var stockPrice := StockPrice(sorted, prices, stock, date);
    EquityOfProduct(shares, stock, sorted, prices, date, shares[stock], stockPrice);
    equity := shares[stock] * stockPrice;
  }

  /**
   * The loop over `Object.entries(positions)`: values every nonzero position
   * at its price on `date` and adds the values up into `totalEquity`.
   */
  method ValuePositions(sorted: seq<Transaction>, prices: PriceMap, date: string, order: seq<string>, shares: map<string, real>)
    returns (held: seq<Holding>, totalEquity: real)
    requires forall k :: k in order ==> k in shares
    ensures held == Equities(order, shares, sorted, prices, date)
    ensures totalEquity == Sum(held)
  {
    held := [];
    totalEquity := 0.0;
    for j := 0 to |order|
      invariant held == Equities(order[..j], shares, sorted, prices, date)
      invariant totalEquity == Sum(held)
    {
      var stock := order[j];
      EquitiesStep(order, j, shares, sorted, prices, date);
      var s := shares[stock];
      if s != 0.0 {
        var equity := StockEquity(sorted, prices, date, shares, stock);
        SumSnoc(held, Holding(stock, equity));
        held := held + [Holding(stock, equity)];
        totalEquity := totalEquity + equity;
      }
    }
    assert order[..|order|] == order;
  }

  /**
   * The body of `dateArray.forEach`: applies the day's transactions to the
   * positions held before the day, values them, and builds the day's point.
   */
  method DayPoint(sorted: seq<Transaction>, prices: PriceMap, date: string, order0: seq<string>, shares0: map<string, real>)
    returns (order: seq<string>, shares: map<string, real>, point: ChartPoint)
    requires SortedByDate(sorted)
    requires Positions(order0, shares0) == Replay(DatedBefore(sorted, date))
    ensures Positions(order, shares) == PositionsOn(sorted, date)
    ensures point == Point(sorted, prices, date)
  {
    order, shares := ApplyDay(sorted, date, order0, shares0, DatedBefore(sorted, date));
    BeforeThenOn(sorted, date);
    var held, totalEquity := ValuePositions(sorted, prices, date, order, shares);
    point := Split(date, totalEquity, held);
  }

  /**
   * The loop over `dateArray`: one chart point per date, each built from the
   * positions the previous date left.
   */
  method BuildChart(sorted: seq<Transaction>, prices: PriceMap, dates: seq<string>) returns (chart: seq<ChartPoint>)
    requires SortedByDate(sorted) && StrictlyAscending(dates)
    requires forall t :: t in sorted ==> t.date in dates
    ensures chart == Chart(sorted, prices, dates)
  {
    var order: seq<string> := [];
    var shares: map<string, real> := map[];
    chart := [];
    if dates == [] {
      return;
    }
    AxisStep(sorted, dates, 0);
    for i := 0 to |dates|
      invariant chart == Chart(sorted, prices, dates[..i])
      invariant i < |dates| ==> Positions(order, shares) == Replay(DatedBefore(sorted, dates[i]))
    {
      AxisStep(sorted, dates, i);
      var point;
      order, shares, point := DayPoint(sorted, prices, dates[i], order, shares);
      ChartStep(sorted, prices, dates, i);
      chart := chart + [point];
    }
    assert dates[..|dates|] == dates;
  }

  /**
   * Builds the chart series: no points for no transactions; otherwise one
   * point per distinct date of the transactions and the price series, in
   * increasing date order, each the `Point` of its date.
   */
  method ProcessTransactions(txs: seq<Transaction>, prices: PriceMap) returns (chart: seq<ChartPoint>)
    ensures txs == [] ==> chart == []
    ensures txs != [] ==> StrictlyAscending(DatesOf(chart))
    ensures txs != [] ==> forall d :: d in DatesOf(chart) <==> d in DateSet(txs, prices)
    ensures forall i :: 0 <= i < |chart| ==> chart[i] == Point(SortByDate(txs), prices, chart[i].date)
  {
    if |txs| == 0 {
      return [];
    }
    var sorted := SortByDate(txs);
    SortByDateSorted(txs);
    SortedDateSet(txs, prices);
    var dates := CollectDates(sorted, prices);
    chart := BuildChart(sorted, prices, dates);
    ChartPoints(sorted, prices, dates);
    assert DatesOf(chart) == dates;
  }

  // ----- fetchStockPrices (lines 27-69) -----

  /**
   * What one daily-series lookup for a symbol yields: the closes by date of a
   * response carrying a "Time Series (Daily)" object, a response without one,
   * or a request that threw.
   */
  datatype FetchResult = Daily(closes: map<string, real>) | NoSeries | Failed

  /**
   * The loop over `stocks`, which lists the symbols of a set and so holds
   * none twice (line 23): a symbol without an entry in the price map is
   * looked up once; a daily series is stored, a failed request stores an
   * empty series, and a response without a series stores nothing. Symbols
   * that already have an entry, even an empty one, are never looked up.
   */
  method FetchMissingPrices(prices: PriceMap, stocks: seq<string>, lookup: string -> FetchResult)
    returns (updated: PriceMap, requested: seq<string>)
    requires forall i, j :: 0 <= i < j < |stocks| ==> stocks[i] != stocks[j]
    ensures forall k :: k in requested <==> k in stocks && k !in prices
    ensures forall i, j :: 0 <= i < j < |requested| ==> requested[i] != requested[j]
    ensures forall k :: k in prices ==> k in updated && updated[k] == prices[k]
    ensures forall k :: k in updated <==> k in prices || (k in requested && !lookup(k).NoSeries?)
    ensures forall k :: k in updated && k !in prices ==>
      updated[k] == if lookup(k).Failed? then map[] else lookup(k).closes
  {
    updated := prices;
    requested := [];
    for i := 0 to |stocks|
      invariant forall k :: k in requested <==> k in stocks[..i] && k !in prices
      invariant forall a, b :: 0 <= a < b < |requested| ==> requested[a] != requested[b]
      invariant forall k :: k in prices ==> k in updated && updated[k] == prices[k]
      invariant forall k :: k in updated <==> k in prices || (k in requested && !lookup(k).NoSeries?)
      invariant forall k :: k in updated && k !in prices ==>
        updated[k] == if lookup(k).Failed? then map[] else lookup(k).closes
    {
      var stock := stocks[i];
      assert stocks[..i + 1] == stocks[..i] + [stock];
      if stock !in updated {
        requested := requested + [stock];
        match lookup(stock)
        case Daily(closes) =>
          updated := updated[stock := closes];
        case NoSeries =>
        case Failed =>
          updated := updated[stock := map[]];
      }
    }
    assert stocks[..|stocks|] == stocks;
  }

  // ----- validateCSV (lines 155-159) -----

  /** The columns an uploaded file must have. */
  const RequiredColumns: seq<string> := ["Date", "Stock Ticker", "Order", "Quantity", "Price", "Amount"]

  /** Whether every listed column is a key of `row` (line 158). */
  function HasColumns(cols: seq<string>, row: RawRow): (b: bool)
    ensures b <==> forall c :: c in cols ==> c in row
  {
    if cols == [] then true
    else
      assert forall c :: c in cols <==> c == cols[0] || c in cols[1..] by {
        assert cols == [cols[0]] + cols[1..];
      }
      cols[0] in row && HasColumns(cols[1..], row)
  }

  /** Whether a row has every column the mapping reads. */
  predicate Complete(row: RawRow)
  {
    "Date" in row && "Stock Ticker" in row && "Order" in row && "Quantity" in row && "Price" in row && "Amount" in row
  }

  /**
   * `validateCSV`: whether the first row has every required column. On no
   * rows `Object.keys(data[0])` throws, which is `None` here.
   */
  function ValidateCsv(rows: seq<RawRow>): (r: Option<bool>)
    ensures r.None? <==> rows == []
    ensures r.Some? ==> (r.value <==> forall c :: c in RequiredColumns ==> c in rows[0])
    ensures r.Some? ==> (r.value <==> Complete(rows[0]))
  {
    if rows == [] then None else Some(HasColumns(RequiredColumns, rows[0]))
  }

  // ----- the row mapping of handleCSVUpload (lines 179-188) -----

  /** The Price text with its first `$` deleted (line 184): the pattern is a string, so later ones stay. */
  function PriceText(price: string): (r: string)
    ensures '$' !in price ==> r == price
    ensures '$' in price ==> |r| == |price| - 1 && r == price[..IndexOf(price, '$')] + price[IndexOf(price, '$') + 1..]
  {
    RemoveFirst(price, '$')
  }

  /** The Amount text with every `(`, `$` and `)` deleted (line 185); commas stay. */
  function AmountText(amount: string): (r: string)
    ensures '(' !in r && '$' !in r && ')' !in r
    ensures forall c :: c in amount && c != '(' && c != '$' && c != ')' ==> c in r
    ensures forall c :: c in r ==> c in amount
  {
    RemoveAll(amount, {'(', '$', ')'})
  }

  /**
   * One row as a transaction, with `parse` standing for `parseFloat`. A row
   * lacking one of the six columns gives `None`.
   */
  function ToTransaction(row: RawRow, parse: string -> real): (r: Option<Transaction>)
    ensures r.Some? <==> Complete(row)
    ensures r.Some? ==>
      && r.value.date == row["Date"] && r.value.ticker == row["Stock Ticker"] && r.value.order == row["Order"]
      && r.value.quantity == parse(row["Quantity"])
      && r.value.price == parse(PriceText(row["Price"]))
      && r.value.amount == parse(AmountText(row["Amount"]))
  {
    if Complete(row) then
      Some(Transaction(row["Date"], row["Stock Ticker"], row["Order"], parse(row["Quantity"]),
                       parse(PriceText(row["Price"])), parse(AmountText(row["Amount"]))))
    else None
  }

  /** Every row mapped in order; `None` as soon as one row cannot be mapped. */
  function ToTransactions(rows: seq<RawRow>, parse: string -> real): (r: Option<seq<Transaction>>)
    ensures r.Some? <==> forall i :: 0 <= i < |rows| ==> ToTransaction(rows[i], parse).Some?
    ensures r.Some? ==> |r.value| == |rows|
    ensures r.Some? ==> forall i :: 0 <= i < |rows| ==> r.value[i] == ToTransaction(rows[i], parse).value
  {
    if rows == [] then Some([])
    else
      var front := rows[..|rows| - 1];
      assert forall i :: 0 <= i < |front| ==> front[i] == rows[i];
      var init := ToTransactions(front, parse);
      var last := ToTransaction(rows[|rows| - 1], parse);
      if init.Some? && last.Some? then
        Some(init.value + [last.value])
      else
        assert !ToTransaction(rows[|rows| - 1], parse).Some? || exists i :: 0 <= i < |front| && !ToTransaction(front[i], parse).Some?;
        None
  }

  /** The state an accepted upload installs. */
  datatype Upload = Upload(transactions: seq<Transaction>, stocks: set<string>, chart: seq<ChartPoint>)

  /**
   * The Papa.parse `complete` callback: rejects a file without the columns,
   * otherwise maps the rows, collects the distinct symbols and builds the
   * chart with the prices already known. `None` is a rejected or failing
   * upload, which leaves the state as it was.
   */
  method HandleUpload(rows: seq<RawRow>, parse: string -> real, prices: PriceMap) returns (r: Option<Upload>)
    ensures r.Some? <==> ValidateCsv(rows) == Some(true) && ToTransactions(rows, parse).Some?
    ensures r.Some? ==> r.value.transactions == ToTransactions(rows, parse).value
    ensures r.Some? ==> forall k :: k in r.value.stocks <==> exists t :: t in r.value.transactions && t.ticker == k
    ensures r.Some? ==> forall i :: 0 <= i < |r.value.chart| ==>
      r.value.chart[i] == Point(SortByDate(r.value.transactions), prices, r.value.chart[i].date)
    ensures r.Some? ==> StrictlyAscending(DatesOf(r.value.chart))
    ensures r.Some? ==> forall d :: d in DatesOf(r.value.chart) <==> d in DateSet(r.value.transactions, prices)
  {
    var valid := ValidateCsv(rows);
    if valid != Some(true) {
      return None;
    }
    var transactions := ToTransactions(rows, parse);
    if transactions.None? {
      return None;
    }
    var txs := transactions.value;
    var stocks := set t | t in txs :: t.ticker;
    var chart := ProcessTransactions(txs, prices);
    r := Some(Upload(txs, stocks, chart));
  }
}
