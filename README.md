# Stock Equity Tracker — a Dafny model of its data core

Stock Equity Tracker is a small web app. A user uploads a broker's trade
report as CSV, and the app draws the portfolio's market value over time. This
project models the two parts of the app that compute things and proves what
they promise:

- **The equity series** (`app/src/app/components/EquityTracker.jsx`):
  - `processTransactions`: sorts the transactions by date and builds the date
    axis from the transaction dates and every symbol's price-series dates. It
    replays Buy and Sell orders into a running positions object and values
    each nonzero position at that day's close. With no usable close it uses
    the price of the last trade on or before the day, else 0. It sums the
    values into `totalEquity`, then splits the symbols at 1 % of the total:
    symbols at or above get their own field, the rest go into "Others".
  - `validateCSV`, the row-to-transaction mapping of `handleCSVUpload`, and
    the price-merge rule of `fetchStockPrices`.
- **The broker-report normaliser** (`app/src/app/components/CSVTransformer.jsx`):
  - the cleaners `cleanAmount` and `cleanPrice`;
  - the filter of Buy/Sell rows, the renaming into a fixed six-column header,
    and the error when nothing remains.

## Modules

| file | module | what it holds |
|---|---|---|
| `wrappers.dfy` | `Wrappers` | `Option` and `Result` |
| `text.dfy` | `Text` | the character-by-character order of strings, JavaScript `trim`, and the two `replace` forms the source uses |
| `csv_transformer.dfy` | `CsvTransformer` | `CSVTransformer.jsx` as pure functions, plus cleaner and transformer idempotence |
| `equity_series.dfy` | `EquitySeries` | the specification of `processTransactions`: the stable date sort, replay, net positions, pricing, valuation, and the 1 % split |
| `equity_tracker.dfy` | `EquityTracker` | the imperative loops of `EquityTracker.jsx`, each proved against `EquitySeries`, plus `validateCSV`, the row mapping and the price merge |

How the model represents the source's data:

- **Dates** are strings and are compared character by character (`Text.AtMost`,
  `Text.Below`). This is the order of `.sort()` at line 85 and of the string
  `<=` at line 107. For ISO `YYYY-MM-DD` dates it is also the order of the
  `new Date` comparison at line 74.
- **Positions.** The `positions` object is a key list in insertion order
  plus a map (`EquitySeries.Positions`), so `Object.entries` visits keys in
  the source's order.
- **Numbers** are Dafny `real`s.
- **`parseFloat`** is a function parameter (`parse`).
- **HTTP lookups** are a function parameter (`lookup`) returning a
  `FetchResult`.
- **A chart point** (`EquitySeries.ChartPoint`) carries:
  - `date` and `totalEquity`;
  - the `<symbol>_equity` fields, as a list of holdings;
  - `Others_equity`, as an `Option`.

## Model

| member | source | states |
|---|---|---|
| `Text.Trim` | app/src/app/components/CSVTransformer.jsx:15 | `.trim()`: the result is a slice of the input with only whitespace cut on each side, and it neither starts nor ends with whitespace |
| `Text.TrimTrimmed` | app/src/app/components/CSVTransformer.jsx:15 | trimming a string that is already trimmed leaves it unchanged |
| `Text.RemoveAll` | app/src/app/components/CSVTransformer.jsx:15 | a global character-class `replace`: a character is in the result iff it is in the input and not in the removed class |
| `Text.RemoveAllOne` | app/src/app/components/CSVTransformer.jsx:15 | a single character is kept iff it is not in the removed class |
| `Text.RemoveAllAppend` | app/src/app/components/CSVTransformer.jsx:15 | deleting distributes over concatenation, so the kept characters stay in input order with their counts |
| `Text.RemoveAllAbsent` | app/src/app/components/CSVTransformer.jsx:20 | removing characters that do not occur returns the input unchanged |
| `Text.RemoveFirst` | app/src/app/components/EquityTracker.jsx:184 | a string-pattern `replace`: unchanged when the character is absent, otherwise exactly its first occurrence is cut out |
| `Text.AtMostTransitive` | app/src/app/components/EquityTracker.jsx:85 | the string order used to sort dates is transitive |
| `Text.AtMostTotal` | app/src/app/components/EquityTracker.jsx:85 | any two dates are comparable |
| `Text.AtMostAntisymmetric` | app/src/app/components/EquityTracker.jsx:85 | two dates each at most the other are equal |
| `CsvTransformer.CleanAmount` | app/src/app/components/CSVTransformer.jsx:13-16 | absent or empty input gives `''`; otherwise the result has no `(`, `)`, `$` or `,`, is trimmed, and is the trim of the input with those characters removed |
| `CsvTransformer.CleanPrice` | app/src/app/components/CSVTransformer.jsx:18-21 | absent or empty input gives `''`; otherwise the result has no `$` or `,`, is trimmed, and is the trim of the input with those characters removed, so parentheses stay |
| `CsvTransformer.CleanAmountFixpoint` | app/src/app/components/CSVTransformer.jsx:15 | an already clean amount is returned unchanged |
| `CsvTransformer.CleanPriceFixpoint` | app/src/app/components/CSVTransformer.jsx:20 | an already clean price is returned unchanged |
| `CsvTransformer.CleanAmountIdempotent` | app/src/app/components/CSVTransformer.jsx:13-16 | cleaning an amount twice equals cleaning it once |
| `CsvTransformer.CleanPriceIdempotent` | app/src/app/components/CSVTransformer.jsx:18-21 | cleaning a price twice equals cleaning it once |
| `CsvTransformer.CellOrEmpty` | app/src/app/components/CSVTransformer.jsx:54-57 | a present cell is copied and a missing one gives `''` |
| `CsvTransformer.Normalize` | app/src/app/components/CSVTransformer.jsx:53-60 | Date, Stock Ticker, Order and Quantity come from Activity Date, Instrument, Trans Code and Quantity, with a missing field giving `''`; Price is `cleanPrice` of the Price cell and Amount is `cleanAmount` of the Amount cell, both clean |
| `CsvTransformer.Trades` | app/src/app/components/CSVTransformer.jsx:51-60 | the output has exactly as many rows as the input has Buy/Sell rows |
| `CsvTransformer.TradesClean` | app/src/app/components/CSVTransformer.jsx:51-60 | every output Order is `Buy` or `Sell`, and every output Price and Amount is clean |
| `CsvTransformer.TradesAppend` | app/src/app/components/CSVTransformer.jsx:51-52 | the filter commutes with concatenation, so kept rows keep their relative order |
| `CsvTransformer.TradesOne` | app/src/app/components/CSVTransformer.jsx:52 | a single row is kept, and normalised, exactly when `IsTrade` holds: its Trans Code is present and exactly `Buy` or `Sell` |
| `CsvTransformer.TradesMembership` | app/src/app/components/CSVTransformer.jsx:51-60 | every output row is the normalisation of some Buy/Sell input row, and every Buy/Sell input row's normalisation is in the output |
| `CsvTransformer.CellsByHeader` | app/src/app/components/CSVTransformer.jsx:68-71 | a kept row becomes one cell per header, in header order, each the value the normalised object holds under that header |
| `CsvTransformer.Transform` | app/src/app/components/CSVTransformer.jsx:62-71 | it fails with "No Buy or Sell transactions found in the file" iff no row is kept; otherwise the table is the six-column header followed by each kept row's cells in header order, with length kept rows + 1 |
| `CsvTransformer.NormalizeFixpoint` | app/src/app/components/CSVTransformer.jsx:53-60 | a row in the output format, with its columns mapped back to the broker's names, normalises to itself |
| `CsvTransformer.TradesOfDenormalized` | app/src/app/components/CSVTransformer.jsx:51-60 | rows in the output format pass the filter and map unchanged |
| `CsvTransformer.TransformIdempotent` | app/src/app/components/CSVTransformer.jsx:51-60 | running the transformer on its own output, with columns mapped back, gives the same rows |
| `EquitySeries.Insert` | app/src/app/components/EquityTracker.jsx:74 | inserting into the sorted list adds exactly that transaction, as a multiset |
| `EquitySeries.InsertSorted` | app/src/app/components/EquityTracker.jsx:74 | inserting into a date-sorted list keeps it date-sorted |
| `EquitySeries.SortByDate` | app/src/app/components/EquityTracker.jsx:74 | the sorted copy is a permutation of the transactions; sortedness and stability are the next two rows |
| `EquitySeries.SortByDateSorted` | app/src/app/components/EquityTracker.jsx:74 | the sorted copy is in non-decreasing date order |
| `EquitySeries.SortByDateStable` | app/src/app/components/EquityTracker.jsx:74 | the sort is stable: for every date, the transactions of that date come out in the order they went in |
| `EquitySeries.InsertDatedOn` | app/src/app/components/EquityTracker.jsx:74 | inserting a transaction puts it in front of every transaction of its own date and leaves their order alone |
| `EquitySeries.DatedMembers` | app/src/app/components/EquityTracker.jsx:88-107 | the day filter keeps exactly the transactions dated `d`; the up-to and before filters keep exactly those dated on or before, and before, `d` |
| `EquitySeries.BeforeThenOn` | app/src/app/components/EquityTracker.jsx:88-94 | in a sorted list, the transactions dated before `d` followed by those dated `d` are exactly those dated up to `d` |
| `EquitySeries.AllBelow` | app/src/app/components/EquityTracker.jsx:90 | when every transaction is dated before `d`, none is dated `d` |
| `EquitySeries.BelowOnAxis` | app/src/app/components/EquityTracker.jsx:85-88 | an axis date lies before the `i`-th axis date iff `i > 0` and it lies on or before the previous one |
| `EquitySeries.AxisOrder` | app/src/app/components/EquityTracker.jsx:85 | on a strictly ascending axis, date order and index order agree |
| `EquitySeries.BeforeOnAxis` | app/src/app/components/EquityTracker.jsx:88-94 | when every transaction date is on the axis, the transactions before an axis date are those up to the previous axis date, and none before the first |
| `EquitySeries.AxisStep` | app/src/app/components/EquityTracker.jsx:88-94 | on a sorted list whose dates all lie on the axis: nothing precedes the first axis date; what precedes an axis date followed by what is dated on it is everything up to it; and that is exactly what precedes the next axis date |
| `EquitySeries.Apply` | app/src/app/components/EquityTracker.jsx:92-93 | applying a transaction keeps the positions object well formed: no key twice, and the key list is exactly the map's keys |
| `EquitySeries.ApplyShares` | app/src/app/components/EquityTracker.jsx:92-93 | a transaction moves its own symbol by `Delta`: plus its quantity for exactly `Buy`, minus it for any other order. A new symbol's key is appended at the end, a known symbol's key list stays as it was, and every other symbol is unchanged |
| `EquitySeries.Replay` | app/src/app/components/EquityTracker.jsx:91-94 | replaying any transactions yields a well-formed positions object |
| `EquitySeries.ReplaySnoc` | app/src/app/components/EquityTracker.jsx:91-94 | replaying one more transaction applies it to the earlier result |
| `EquitySeries.DatedOnStep` | app/src/app/components/EquityTracker.jsx:90 | scanning one more transaction, the day filter takes it exactly when it is dated that day |
| `EquitySeries.TickersUpToTraded` | app/src/app/components/EquityTracker.jsx:93 | a symbol is among the traded symbols up to `d` iff some transaction in it is dated on or before `d` |
| `EquitySeries.ReplayUpTo` | app/src/app/components/EquityTracker.jsx:90-94 | replaying the transactions up to `d` leaves each symbol holding its net quantity up to `d`: its `Buy` quantities minus the quantities of all its other orders |
| `EquitySeries.ReplayUpToKeys` | app/src/app/components/EquityTracker.jsx:93 | the keys of the replayed positions are exactly the symbols traded up to `d` |
| `EquitySeries.NetSharesAppend` | app/src/app/components/EquityTracker.jsx:90-94 | net shares over two lists add up |
| `EquitySeries.NetSharesInsert` | app/src/app/components/EquityTracker.jsx:74 | net shares do not depend on where the sort inserts a transaction |
| `EquitySeries.NetSharesSorted` | app/src/app/components/EquityTracker.jsx:74 | net shares are the same for the sorted copy as for the input |
| `EquitySeries.PositionsOnNet` | app/src/app/components/EquityTracker.jsx:88-94 | on date `d`, each symbol's position is its net quantity over the transactions dated up to `d`, each counted once: `Buy` quantities minus the quantities of every other order. The symbol has a key iff it was traded by then |
| `EquitySeries.Quote` | app/src/app/components/EquityTracker.jsx:104-105 | a stored close is used iff it is present and nonzero, and it is then that close |
| `EquitySeries.LastTradeIsLast` | app/src/app/components/EquityTracker.jsx:106-108 | the `pop` of the filter: no trade is found iff no element is in the symbol and dated on or before the day; otherwise the one found sits at a position after which no element matches |
| `EquitySeries.LastTrade` | app/src/app/components/EquityTracker.jsx:106-108 | any trade found is in the list, in the symbol, and dated on or before the day |
| `EquitySeries.LastTradeOfSorted` | app/src/app/components/EquityTracker.jsx:106-108 | on a sorted list, no trade is found iff the symbol has no trade on or before the day; a found trade has the latest such date |
| `EquitySeries.LastTradeLatest` | app/src/app/components/EquityTracker.jsx:106-108 | the same over the sorted copy of any transaction list, stated against the unsorted list |
| `EquitySeries.PriceAt` | app/src/app/components/EquityTracker.jsx:104-110 | the price is the close when present and nonzero, else the last trade's price when there is one, else 0 |
| `EquitySeries.TotalIsMarketValue` | app/src/app/components/EquityTracker.jsx:98-115 | the sum of the equities is the sum of shares × price over the nonzero positions |
| `EquitySeries.EquitiesNonzero` | app/src/app/components/EquityTracker.jsx:101-114 | `Equities`, the model of `tempEquities`, holds a symbol iff its position is nonzero, and its equity is shares × price |
| `EquitySeries.PercentageThreshold` | app/src/app/components/EquityTracker.jsx:129-134 | for a positive total, `Percentage` is at least 1 exactly when `equity × 100 ≥ total` |
| `EquitySeries.SplitMembership` | app/src/app/components/EquityTracker.jsx:134-135 | `MainHoldings` are exactly the entries at or above 1 %, and `MinorHoldings` exactly those below |
| `EquitySeries.SplitSum` | app/src/app/components/EquityTracker.jsx:134-142 | main plus others sum to all holdings |
| `EquitySeries.SumNonnegative` | app/src/app/components/EquityTracker.jsx:142 | a sum of nonnegative equities is nonnegative |
| `EquitySeries.OthersField` | app/src/app/components/EquityTracker.jsx:141-146 | `Others_equity` is present iff the below-threshold sum is positive, and it is then that sum |
| `EquitySeries.Split` | app/src/app/components/EquityTracker.jsx:117-147 | a point keeps date and total; with total ≤ 0 it has no symbol fields and no Others; otherwise a symbol has its own field iff its equity is at least 1 % of the total, and Others is the positive below-threshold sum |
| `EquitySeries.FieldsAddUp` | app/src/app/components/EquityTracker.jsx:124-146 | with nonnegative equities and a positive total, the symbol fields plus Others add up to the total |
| `EquitySeries.PointValues` | app/src/app/components/EquityTracker.jsx:88-148 | the point of a date, in terms of the positions on it: the total is shares × price summed over every position. With a positive total, a symbol has its own field iff its position is nonzero and its equity reaches 1 % of the total; otherwise there are no fields and no Others |
| `EquitySeries.ChartPoints` | app/src/app/components/EquityTracker.jsx:88-150 | the chart's `j`-th point is the point of the `j`-th axis date |
| `EquitySeries.SortedDateSet` | app/src/app/components/EquityTracker.jsx:79-83 | sorting changes neither the set of dates nor which dates are transaction dates |
| `EquityTracker.InsertDate` | app/src/app/components/EquityTracker.jsx:85 | inserting a new date into the axis adds exactly that date |
| `EquityTracker.InsertDateAscending` | app/src/app/components/EquityTracker.jsx:85 | inserting into a strictly ascending axis keeps it strictly ascending |
| `EquityTracker.CollectDates` | app/src/app/components/EquityTracker.jsx:79-85 | the axis is strictly ascending and holds exactly the transaction dates and every date of every price series |
| `EquityTracker.ApplyTransaction` | app/src/app/components/EquityTracker.jsx:91-94 | the callback's in-place update is `Apply`: add the signed quantity to the symbol, appending the key when it is new |
| `EquityTracker.ApplyDay` | app/src/app/components/EquityTracker.jsx:90-94 | after the day's loop, the positions are the earlier replay followed by that day's transactions, in sorted order |
| `EquityTracker.StockPrice` | app/src/app/components/EquityTracker.jsx:104-110 | the price the loop computes for a symbol on a day is `PriceAt`: the close when present and nonzero, else the last trade's price, else 0 |
| `EquityTracker.StockEquity` | app/src/app/components/EquityTracker.jsx:111 | a position's equity is its shares times `PriceAt` |
| `EquityTracker.ValuePositions` | app/src/app/components/EquityTracker.jsx:97-115 | the loop values exactly the nonzero positions, in key order, and accumulates their sum as `totalEquity` |
| `EquityTracker.DayPoint` | app/src/app/components/EquityTracker.jsx:88-148 | starting from the replay of everything before the day, one iteration of the date loop leaves the positions on that day and pushes the specification's point for it |
| `EquityTracker.BuildChart` | app/src/app/components/EquityTracker.jsx:88-150 | the chart has one point per axis date, in axis order, each the point the specification gives for that date |
| `EquityTracker.ProcessTransactions` | app/src/app/components/EquityTracker.jsx:71-153 | no transactions gives no points; otherwise the point dates are strictly ascending and are exactly the transaction and price-series dates, and each point is the specification's point for its date |
| `EquityTracker.FetchMissingPrices` | app/src/app/components/EquityTracker.jsx:39-56 | for a list of distinct symbols: only symbols without an entry are looked up, each once; existing entries are untouched even when empty; a failed lookup stores an empty series, a response without a series stores nothing, and a series is stored as returned |
| `EquityTracker.HasColumns` | app/src/app/components/EquityTracker.jsx:158 | `every`/`includes`: true iff every listed column is a key of the row |
| `EquityTracker.ValidateCsv` | app/src/app/components/EquityTracker.jsx:155-159 | no rows throws (`None`); otherwise the file is accepted iff its first row has all six required columns |
| `EquityTracker.PriceText` | app/src/app/components/EquityTracker.jsx:184 | only the first `$` of the Price text is removed; without a `$` the text is unchanged |
| `EquityTracker.AmountText` | app/src/app/components/EquityTracker.jsx:185 | every `(`, `$` and `)` is removed and every other character, commas included, is kept |
| `EquityTracker.ToTransaction` | app/src/app/components/EquityTracker.jsx:179-186 | a row maps iff it has the six columns; date, ticker and order are copied, and quantity, price and amount are the parse of the Quantity, stripped Price and stripped Amount text |
| `EquityTracker.ToTransactions` | app/src/app/components/EquityTracker.jsx:179-186 | the mapping succeeds iff every row maps, and then it is the row-by-row mapping |
| `EquityTracker.HandleUpload` | app/src/app/components/EquityTracker.jsx:172-195 | an upload is accepted iff validation passes and every row maps. It then installs the mapped transactions and the set of their symbols. It also installs a chart whose dates are strictly ascending and are exactly the transaction and known price dates, each point being the specification's point |

## Left out

- Papa.parse and Papa.unparse are an external CSV library. Rows are
  modelled as already-parsed maps from column name to text, and the
  normaliser's output as a table of string cells, before unparsing.
- The HTTP requests to the price API and to `/api/cache`, and the cache
  route itself, are I/O. A lookup is the parameter `lookup`, and its three
  outcomes are the cases of `FetchResult`.
- `parseFloat` is the parameter `parse`, and NaN is not modelled. A NaN
  close or NaN trade price counts as missing in the source; the model has
  no such value.
- Floating-point rounding is not modelled; all numbers are exact reals.
- React state, `useEffect`, `FileReader`, the loading flag, alerts and all
  rendering are UI plumbing.
  - The effect at line 22 tests `.length` on a `Set`, which is always
    undefined, so it never starts a price fetch. `FetchMissingPrices`
    models the merge rule on its own, without a caller.
  - The assignment to the undeclared `cachedPrices` at line 34 throws, and
    its `catch` swallows the error, so it has no effect; it is not modelled.
- Chart point field order is not modelled. Line 131 sorts holdings by
  descending equity, which only orders the object's keys. The model keeps
  holdings in position order.
- Dates that are not ISO `YYYY-MM-DD` are not modelled. For those, the
  `new Date` sort at line 74 can disagree with the string order. Strings
  are compared by `char`, not by UTF-16 code unit.
- JavaScript objects list integer-like keys first. A ticker such as `"123"`
  would change the key order of `positions`; it is not modelled.
- A ticker named `Others` would make its `Others_equity` field collide with
  the Others field; the model keeps the two apart.
- `EquityTracker.ToTransaction` returns `None` for a row missing any of the
  six columns. In the source, a missing Price or Amount throws, while a
  missing Date, Stock Ticker, Order or Quantity gives `undefined` or NaN
  fields, which the model's types cannot hold.
- The file-type check and the clipboard copy in `CSVTransformer.jsx` are UI
  checks.
- The per-point tooltip and legend formatting is display only.
