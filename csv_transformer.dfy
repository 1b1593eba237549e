/**
 * The broker-report normaliser (app/src/app/components/CSVTransformer.jsx).
 *
 * A parsed report row is a map from column name to cell text; a column the
 * row lacks is simply not a key (JavaScript `undefined`). The result is the
 * table handed to the CSV writer: the fixed header followed by one row of six
 * cells per Buy or Sell transaction.
 */
module CsvTransformer {
  import opened Wrappers
  import opened Text

  type RawRow = map<string, string>

  /** One transaction in the simplified six-column format. */
  datatype NormalizedRow = NormalizedRow(
    date: string, ticker: string, order: string, quantity: string, price: string, amount: string)

  const Header: seq<string> := ["Date", "Stock Ticker", "Order", "Quantity", "Price", "Amount"]

  const NoTradesMessage: string := "No Buy or Sell transactions found in the file"

  /** Characters `cleanAmount` deletes. */
  const AmountJunk: set<char> := {'(', ')', '$', ','}

  /** Characters `cleanPrice` deletes. */
  const PriceJunk: set<char> := {'$', ','}

  /** `row[key]`: the cell, or None when the row has no such column. */
  function Cell(row: RawRow, key: string): Option<string>
  {
    if key in row then Some(row[key]) else None
  }

  /** The cell, or the empty string when the row has no such column (lines 54-57). */
  function CellOrEmpty(row: RawRow, key: string): (r: string)
    ensures key in row ==> r == row[key]
    ensures key !in row ==> r == ""
  {
    if key in row && row[key] != "" then row[key] else ""
  }

  /** True for a value `cleanAmount` may return. */
  predicate IsCleanAmount(s: string)
  {
    IsTrimmed(s) && forall c :: c in AmountJunk ==> c !in s
  }

  /** True for a value `cleanPrice` may return. */
  predicate IsCleanPrice(s: string)
  {
    IsTrimmed(s) && forall c :: c in PriceJunk ==> c !in s
  }

  /**
   * `cleanAmount`: '' for an absent or empty cell; otherwise the cell with
   * every parenthesis, dollar sign and comma deleted and the ends trimmed.
   */
  function CleanAmount(amount: Option<string>): (r: string)
    ensures amount == None || amount == Some("") ==> r == ""
    ensures IsCleanAmount(r)
    ensures amount.Some? && amount.value != "" ==> TrimmedFrom(r, RemoveAll(amount.value, AmountJunk))
  {
    match amount
    case None => ""
    case Some(s) => if s == "" then "" else Trim(RemoveAll(s, AmountJunk))
  }

  /**
   * `cleanPrice`: '' for an absent or empty cell; otherwise the cell with
   * every dollar sign and comma deleted and the ends trimmed.
   */
  function CleanPrice(price: Option<string>): (r: string)
    ensures price == None || price == Some("") ==> r == ""
    ensures IsCleanPrice(r)
    ensures price.Some? && price.value != "" ==> TrimmedFrom(r, RemoveAll(price.value, PriceJunk))
  {
    match price
    case None => ""
    case Some(s) => if s == "" then "" else Trim(RemoveAll(s, PriceJunk))
  }

  /** A clean amount is a fixpoint of `cleanAmount`. */
  lemma CleanAmountFixpoint(s: string)
    requires IsCleanAmount(s)
    ensures CleanAmount(Some(s)) == s
  {
    if s != "" {
      RemoveAllAbsent(s, AmountJunk);
      TrimTrimmed(s);
      calc {
        CleanAmount(Some(s));
        Trim(RemoveAll(s, AmountJunk));
        Trim(s);
      }
    }
  }

  /** A clean price is a fixpoint of `cleanPrice`. */
  lemma CleanPriceFixpoint(s: string)
    requires IsCleanPrice(s)
    ensures CleanPrice(Some(s)) == s
  {
    if s != "" {
      RemoveAllAbsent(s, PriceJunk);
      TrimTrimmed(s);
      calc {
        CleanPrice(Some(s));
        Trim(RemoveAll(s, PriceJunk));
        Trim(s);
      }
    }
  }

  /** Cleaning an amount that is already clean returns it unchanged. */
  lemma CleanAmountIdempotent(amount: Option<string>)
    ensures CleanAmount(Some(CleanAmount(amount))) == CleanAmount(amount)
  {
    CleanAmountFixpoint(CleanAmount(amount));
  }

  /** Cleaning a price that is already clean returns it unchanged. */
  lemma CleanPriceIdempotent(price: Option<string>)
    ensures CleanPrice(Some(CleanPrice(price))) == CleanPrice(price)
  {
    CleanPriceFixpoint(CleanPrice(price));
  }

  /** The filter: the row's `Trans Code` is exactly `Buy` or `Sell`. */
  predicate IsTrade(row: RawRow)
  {
    "Trans Code" in row && (row["Trans Code"] == "Buy" || row["Trans Code"] == "Sell")
  }

  /** The map: rename the broker's columns and clean Price and Amount. */
  function Normalize(row: RawRow): (n: NormalizedRow)
    ensures n.date == CellOrEmpty(row, "Activity Date")
    ensures n.ticker == CellOrEmpty(row, "Instrument")
    ensures n.order == CellOrEmpty(row, "Trans Code")
    ensures n.quantity == CellOrEmpty(row, "Quantity")
    ensures n.price == CleanPrice(Cell(row, "Price")) && IsCleanPrice(n.price)
    ensures n.amount == CleanAmount(Cell(row, "Amount")) && IsCleanAmount(n.amount)
    ensures IsTrade(row) ==> n.order == row["Trans Code"]
  {
    NormalizedRow(
      CellOrEmpty(row, "Activity Date"),
      CellOrEmpty(row, "Instrument"),
      CellOrEmpty(row, "Trans Code"),
      CellOrEmpty(row, "Quantity"),
      CleanPrice(Cell(row, "Price")),
      CleanAmount(Cell(row, "Amount")))
  }

  /** The Buy/Sell rows, in input order, each normalised (lines 51-60). */
  function Trades(rows: seq<RawRow>): (ns: seq<NormalizedRow>)
    ensures |ns| == CountTrades(rows)
  {
    if rows == [] then []
    else (if IsTrade(rows[0]) then [Normalize(rows[0])] else []) + Trades(rows[1..])
  }

  /** The number of Buy/Sell rows. */
  function CountTrades(rows: seq<RawRow>): nat
  {
    if rows == [] then 0 else (if IsTrade(rows[0]) then 1 else 0) + CountTrades(rows[1..])
  }

  /** The filter is stable: it commutes with concatenation, so the kept rows keep their order. */
  lemma {:induction false} TradesAppend(a: seq<RawRow>, b: seq<RawRow>)
    ensures Trades(a + b) == Trades(a) + Trades(b)
  {
    if a == [] {
      assert a + b == b;
    } else {
      var head := if IsTrade(a[0]) then [Normalize(a[0])] else [];
      assert (a + b)[0] == a[0] && (a + b)[1..] == a[1..] + b;
      TradesAppend(a[1..], b);
      assert head + (Trades(a[1..]) + Trades(b)) == (head + Trades(a[1..])) + Trades(b);
    }
  }

  /** A single row is kept, and normalised, exactly when it is a Buy or a Sell. */
  lemma TradesOne(row: RawRow)
    ensures Trades([row]) == if IsTrade(row) then [Normalize(row)] else []
  {
    assert [row][1..] == [];
  }

  /** Every output row comes from a Buy/Sell input row, and every Buy/Sell input row is in the output. */
  lemma {:induction false} TradesMembership(rows: seq<RawRow>)
    ensures forall n :: n in Trades(rows) <==> exists row :: row in rows && IsTrade(row) && Normalize(row) == n
  {
    if rows != [] {
      TradesMembership(rows[1..]);
      assert forall row :: row in rows <==> row == rows[0] || row in rows[1..];
    }
  }

  /** Every output Order is `Buy` or `Sell`, and every output Price and Amount is clean. */
  lemma TradesClean(rows: seq<RawRow>)
    ensures forall n :: n in Trades(rows) ==> n.order == "Buy" || n.order == "Sell"
    ensures forall n :: n in Trades(rows) ==> IsCleanPrice(n.price) && IsCleanAmount(n.amount)
  {
    TradesMembership(rows);
  }

  /** The object the map step builds (lines 53-60), keyed by the output column names. */
  function Record(n: NormalizedRow): map<string, string>
  {
    map["Date" := n.date, "Stock Ticker" := n.ticker, "Order" := n.order,
        "Quantity" := n.quantity, "Price" := n.price, "Amount" := n.amount]
  }

  /** The six cells of a normalised row, in header order. */
  function Cells(n: NormalizedRow): (r: seq<string>)
    ensures |r| == |Header|
  {
    [n.date, n.ticker, n.order, n.quantity, n.price, n.amount]
  }

  /** A table row is each header's value looked up in the object, in header order (line 71). */
  lemma CellsByHeader(n: NormalizedRow)
    ensures forall i :: 0 <= i < |Header| ==> Header[i] in Record(n) && Cells(n)[i] == Record(n)[Header[i]]
  {
  }

  /**
   * The transformation inside `handleFileUpload`: the error message when no
   * Buy or Sell row remains, otherwise the header followed by the kept rows.
   */
  function Transform(rows: seq<RawRow>): (r: Result<seq<seq<string>>, string>)
    ensures r.Failure? <==> CountTrades(rows) == 0
    ensures r.Failure? ==> r.error == NoTradesMessage
    ensures r.Success? ==>
      && |r.value| == CountTrades(rows) + 1
      && r.value[0] == Header
      && forall i :: 1 <= i < |r.value| ==> r.value[i] == Cells(Trades(rows)[i - 1])
  {
    var kept := Trades(rows);
    if |kept| == 0 then Failure(NoTradesMessage)
    else
      var body := seq(|kept|, i requires 0 <= i < |kept| => Cells(kept[i]));
      assert forall i :: 1 <= i < |body| + 1 ==> ([Header] + body)[i] == body[i - 1];
      Success([Header] + body)
  }

  /** A normalised row put back under the broker's column names. */
  function Denormalize(n: NormalizedRow): RawRow
  {
    map["Activity Date" := n.date, "Instrument" := n.ticker, "Trans Code" := n.order,
        "Quantity" := n.quantity, "Price" := n.price, "Amount" := n.amount]
  }

  /** A row the transformer produced survives a second pass unchanged. */
  lemma NormalizeFixpoint(n: NormalizedRow)
    requires n.order == "Buy" || n.order == "Sell"
    requires IsCleanPrice(n.price) && IsCleanAmount(n.amount)
    ensures IsTrade(Denormalize(n))
    ensures Normalize(Denormalize(n)) == n
  {
    var row := Denormalize(n);
    assert row["Activity Date"] == n.date && row["Instrument"] == n.ticker;
    assert row["Trans Code"] == n.order && row["Quantity"] == n.quantity;
    assert Cell(row, "Price") == Some(n.price);
    assert Cell(row, "Amount") == Some(n.amount);
    CleanPriceFixpoint(n.price);
    CleanAmountFixpoint(n.amount);
  }

  /** Every row put back under the broker's column names. */
  function DenormalizeAll(ns: seq<NormalizedRow>): (rows: seq<RawRow>)
    ensures |rows| == |ns|
    ensures forall i :: 0 <= i < |ns| ==> rows[i] == Denormalize(ns[i])
  {
    if ns == [] then [] else [Denormalize(ns[0])] + DenormalizeAll(ns[1..])
  }

  /** Rows in the transformer's output format pass through it unchanged. */
  lemma {:induction false} TradesOfDenormalized(ns: seq<NormalizedRow>)
    requires forall n :: n in ns ==> n.order == "Buy" || n.order == "Sell"
    requires forall n :: n in ns ==> IsCleanPrice(n.price) && IsCleanAmount(n.amount)
    ensures Trades(DenormalizeAll(ns)) == ns
  {
    if ns != [] {
      assert ns[0] in ns;
      NormalizeFixpoint(ns[0]);
      TradesOfDenormalized(ns[1..]);
      assert DenormalizeAll(ns)[1..] == DenormalizeAll(ns[1..]);
      assert ns == [ns[0]] + ns[1..];
    }
  }

  /** Normalising the output again, after mapping the column names back, gives the same rows. */
  lemma TransformIdempotent(rows: seq<RawRow>)
    ensures Trades(DenormalizeAll(Trades(rows))) == Trades(rows)
  {
    TradesClean(rows);
    TradesOfDenormalized(Trades(rows));
  }
}
