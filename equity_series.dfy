/**
 * The specification side of `processTransactions`
 * (app/src/app/components/EquityTracker.jsx): what the chart point of one
 * date is, defined from the date-sorted transactions and the price map, and
 * the properties of that definition. The method that builds the whole series
 * step by step is `EquityTracker.ProcessTransactions`.
 *
 * Numbers are reals. Dates are strings ordered as JavaScript orders strings
 * (`Text.AtMost`); for ISO-8601 calendar dates this is also the order the
 * `new Date` comparator gives.
 */
module EquitySeries {
  import opened Wrappers
  import opened Text

  /** A row of the uploaded CSV after the mapping in `handleCSVUpload`. */
  datatype Transaction = Transaction(
    date: string, ticker: string, order: string, quantity: real, price: real, amount: real)

  /** Daily closes: symbol, then date, to close. */
  type PriceMap = map<string, map<string, real>>

  /** The `positions` object: its keys in insertion order, and its values. */
  datatype Positions = Positions(order: seq<string>, shares: map<string, real>)

  /** One symbol's equity on a date. */
  datatype Holding = Holding(ticker: string, equity: real)

  /**
   * A chart point: `date`, `totalEquity`, one `<symbol>_equity` field per
   * holding and an optional `Others_equity`.
   */
  datatype ChartPoint = ChartPoint(date: string, totalEquity: real, holdings: seq<Holding>, others: Option<real>)

  /** A symbol below this percentage of the total goes into Others. */
  const ThresholdPercent: real := 1.0

  // ----- The stable sort by date (line 74) -----

  predicate SortedByDate(s: seq<Transaction>)
  {
    forall i, j :: 0 <= i < j < |s| ==> AtMost(s[i].date, s[j].date)
  }

  /** Puts `t` after every element dated strictly before it and before the rest. */
  function Insert(t: Transaction, s: seq<Transaction>): (r: seq<Transaction>)
    ensures multiset(r) == multiset(s) + multiset{t}
  {
    if s == [] then [t]
    else if AtMost(t.date, s[0].date) then [t] + s
    else
      assert s == [s[0]] + s[1..];
      [s[0]] + Insert(t, s[1..])
  }

  /** The copy of the transactions sorted by date with a stable insertion sort (line 74). */
  function SortByDate(txs: seq<Transaction>): (r: seq<Transaction>)
    ensures multiset(r) == multiset(txs)
    ensures |r| == |txs|
  {
    if txs == [] then []
    else
      assert txs == [txs[0]] + txs[1..];
      Insert(txs[0], SortByDate(txs[1..]))
  }

  /** Everything `Insert` puts after a lower bound of both `t` and `s` stays above it. */
  lemma InsertLowerBound(t: Transaction, s: seq<Transaction>, low: string)
    requires AtMost(low, t.date) && forall k :: 0 <= k < |s| ==> AtMost(low, s[k].date)
    ensures forall j :: 0 <= j < |Insert(t, s)| ==> AtMost(low, Insert(t, s)[j].date)
  {
    var r := Insert(t, s);
    forall j | 0 <= j < |r| ensures AtMost(low, r[j].date) {
      assert r[j] in multiset(r);
      if r[j] != t {
        assert r[j] in multiset(s);
        var k :| 0 <= k < |s| && s[k] == r[j];
      }
    }
  }

  lemma {:induction false} InsertSorted(t: Transaction, s: seq<Transaction>)
    requires SortedByDate(s)
    ensures SortedByDate(Insert(t, s))
  {
    if s != [] {
      var r := Insert(t, s);
      if AtMost(t.date, s[0].date) {
        forall i, j | 0 <= i < j < |r| ensures AtMost(r[i].date, r[j].date) {
          if i == 0 && j > 1 {
            AtMostTransitive(t.date, s[0].date, s[j - 1].date);
          }
        }
      } else {
        AtMostTotal(t.date, s[0].date);
        InsertSorted(t, s[1..]);
        InsertLowerBound(t, s[1..], s[0].date);
        assert r == [s[0]] + Insert(t, s[1..]);
      }
    }
  }

  lemma {:induction false} SortByDateSorted(txs: seq<Transaction>)
    ensures SortedByDate(SortByDate(txs))
  {
    if txs != [] {
      SortByDateSorted(txs[1..]);
      InsertSorted(txs[0], SortByDate(txs[1..]));
    }
  }

  // ----- Selecting transactions by date -----

  /** The transactions dated on or before `d`, in order. */
  function DatedUpTo(s: seq<Transaction>, d: string): (r: seq<Transaction>)
    ensures |r| <= |s|
  {
    if s == [] then []
    else DatedUpTo(s[..|s| - 1], d) + (if AtMost(s[|s| - 1].date, d) then [s[|s| - 1]] else [])
  }

  /** The transactions dated strictly before `d`, in order. */
  function DatedBefore(s: seq<Transaction>, d: string): (r: seq<Transaction>)
    ensures |r| <= |s|
  {
    if s == [] then []
    else DatedBefore(s[..|s| - 1], d) + (if Below(s[|s| - 1].date, d) then [s[|s| - 1]] else [])
  }

  /** The transactions dated exactly `d`, in order: the day filter of line 90. */
  function DatedOn(s: seq<Transaction>, d: string): (r: seq<Transaction>)
    ensures |r| <= |s|
  {
    if s == [] then []
    else DatedOn(s[..|s| - 1], d) + (if s[|s| - 1].date == d then [s[|s| - 1]] else [])
  }

  /** Each of the three date filters keeps exactly the elements of `s` whose date passes it. */
  lemma {:induction false} DatedMembers(s: seq<Transaction>, d: string)
    ensures forall t :: t in DatedOn(s, d) <==> t in s && t.date == d
    ensures forall t :: t in DatedUpTo(s, d) <==> t in s && AtMost(t.date, d)
    ensures forall t :: t in DatedBefore(s, d) <==> t in s && Below(t.date, d)
  {
    if s != [] {
      var init, x := s[..|s| - 1], s[|s| - 1];
      DatedMembers(init, d);
      assert forall t :: t in s <==> t in init || t == x by {
        assert s == init + [x];
      }
    }
  }

  /** The day filter, read from the front. */
  lemma {:induction false} DatedOnCons(x: Transaction, s: seq<Transaction>, d: string)
    ensures DatedOn([x] + s, d) == (if x.date == d then [x] else []) + DatedOn(s, d)
  {
    var head := if x.date == d then [x] else [];
    if s == [] {
      assert ([x] + s)[..0] == [];
    } else {
      var init, y := s[..|s| - 1], s[|s| - 1];
      var tail := if y.date == d then [y] else [];
      assert ([x] + s)[..|s|] == [x] + init && ([x] + s)[|s|] == y;
      DatedOnCons(x, init, d);
      assert (head + DatedOn(init, d)) + tail == head + (DatedOn(init, d) + tail);
    }
  }

  /** Two prefixes of which at least one is empty can be put in either order. */
  lemma PrependCommute(a: seq<Transaction>, b: seq<Transaction>, c: seq<Transaction>)
    requires a == [] || b == []
    ensures a + (b + c) == b + (a + c)
  {
    if a == [] {
      assert a + (b + c) == b + c && a + c == c;
    } else {
      assert b + (a + c) == a + c && b + c == c;
    }
  }

  /** Where `Insert` passes over the first element, that element keeps its place in the day filter. */
  lemma InsertDatedOnSkip(t: Transaction, s: seq<Transaction>, d: string)
    requires s != [] && !AtMost(t.date, s[0].date)
    requires DatedOn(Insert(t, s[1..]), d) == (if t.date == d then [t] else []) + DatedOn(s[1..], d)
    ensures DatedOn(Insert(t, s), d) == (if t.date == d then [t] else []) + DatedOn(s, d)
  {
    var u, rest := Insert(t, s[1..]), s[1..];
    assert s == [s[0]] + rest;
    DatedOnCons(s[0], u, d);
    DatedOnCons(s[0], rest, d);
    AtMostReflexive(t.date);
    PrependCommute(if s[0].date == d then [s[0]] else [], if t.date == d then [t] else [], DatedOn(rest, d));
  }

  /** Inserting `t` puts it in front of every transaction of its own date. */
  lemma {:induction false} InsertDatedOn(t: Transaction, s: seq<Transaction>, d: string)
    ensures DatedOn(Insert(t, s), d) == (if t.date == d then [t] else []) + DatedOn(s, d)
  {
    if s == [] {
      DatedOnCons(t, s, d);
      assert [t] + s == [t];
    } else if AtMost(t.date, s[0].date) {
      DatedOnCons(t, s, d);
    } else {
      InsertDatedOn(t, s[1..], d);
      InsertDatedOnSkip(t, s, d);
    }
  }

  /**
   * The sort is stable: the transactions of any one date come out in the
   * order they went in.
   */
  lemma {:induction false} SortByDateStable(txs: seq<Transaction>, d: string)
    ensures DatedOn(SortByDate(txs), d) == DatedOn(txs, d)
  {
    if txs != [] {
      SortByDateStable(txs[1..], d);
      InsertDatedOn(txs[0], SortByDate(txs[1..]), d);
      DatedOnCons(txs[0], txs[1..], d);
      assert txs == [txs[0]] + txs[1..];
    }
  }

  lemma {:induction false} AllBelow(s: seq<Transaction>, d: string)
    requires forall t :: t in s ==> Below(t.date, d)
    ensures DatedOn(s, d) == [] && DatedBefore(s, d) == DatedUpTo(s, d)
  {
    if s != [] {
      assert s[|s| - 1] in s;
      assert forall t :: t in s[..|s| - 1] ==> t in s;
      AllBelow(s[..|s| - 1], d);
    }
  }

  /** In a sorted list, what is dated before `d` followed by what is dated on `d` is what is dated up to `d`. */
  lemma {:induction false} BeforeThenOn(s: seq<Transaction>, d: string)
    requires SortedByDate(s)
    ensures DatedBefore(s, d) + DatedOn(s, d) == DatedUpTo(s, d)
  {
    if s != [] {
      var init, x := s[..|s| - 1], s[|s| - 1];
      assert SortedByDate(init);
      if x.date == d {
        AtMostReflexive(d);
        BeforeThenOn(init, d);
        assert DatedBefore(s, d) == DatedBefore(init, d);
        assert DatedOn(s, d) == DatedOn(init, d) + [x];
        assert DatedUpTo(s, d) == DatedUpTo(init, d) + [x];
      } else if Below(x.date, d) {
        forall t | t in init ensures Below(t.date, d) {
          var i :| 0 <= i < |init| && init[i] == t;
          AtMostTransitive(t.date, x.date, d);
          if t.date == d {
            AtMostAntisymmetric(x.date, d);
          }
        }
        AllBelow(init, d);
      } else {
        BeforeThenOn(init, d);
      }
    }
  }

  /** Distinct dates in increasing order. */
  predicate StrictlyAscending(ds: seq<string>)
  {
    forall i, j :: 0 <= i < j < |ds| ==> Below(ds[i], ds[j])
  }

  /** On a strictly ascending list, the order of two entries is the order of their indices. */
  lemma AxisOrder(ds: seq<string>, k: nat, i: nat)
    requires StrictlyAscending(ds) && k < |ds| && i < |ds|
    ensures AtMost(ds[k], ds[i]) <==> k <= i
    ensures Below(ds[k], ds[i]) <==> k < i
  {
    if k == i {
      AtMostReflexive(ds[k]);
    } else if i < k {
      BelowAsymmetric(ds[i], ds[k]);
    }
  }

  /** For a date on the axis, lying before `ds[i]` is lying up to the previous axis date. */
  lemma BelowOnAxis(ds: seq<string>, d: string, i: nat)
    requires StrictlyAscending(ds) && i < |ds| && d in ds
    ensures Below(d, ds[i]) <==> i > 0 && AtMost(d, ds[i - 1])
  {
    var k :| 0 <= k < |ds| && ds[k] == d;
    AxisOrder(ds, k, i);
    if i > 0 {
      AxisOrder(ds, k, i - 1);
    }
  }

  /**
   * When every transaction date is on the axis `ds`, what is dated before
   * `ds[i]` is what is dated up to the previous axis date.
   */
  lemma {:induction false} BeforeOnAxis(s: seq<Transaction>, ds: seq<string>, i: nat)
    requires StrictlyAscending(ds) && i < |ds|
    requires forall j :: 0 <= j < |s| ==> s[j].date in ds
    ensures i == 0 ==> DatedBefore(s, ds[i]) == []
    ensures 0 < i ==> DatedBefore(s, ds[i]) == DatedUpTo(s, ds[i - 1])
  {
    if s != [] {
      var init, x := s[..|s| - 1], s[|s| - 1];
      assert forall j :: 0 <= j < |init| ==> init[j] == s[j];
      BeforeOnAxis(init, ds, i);
      BelowOnAxis(ds, x.date, i);
    }
  }

  // ----- Replaying transactions into positions (lines 90-94) -----

  /** The signed share change of one transaction: anything but `Buy` sells. */
  function Delta(t: Transaction): real
  {
    if t.order == "Buy" then t.quantity else -t.quantity
  }

  /** Keys in insertion order, no key twice, and the key list is the map's domain. */
  ghost predicate WellFormed(p: Positions)
  {
    && (forall k :: k in p.shares <==> k in p.order)
    && (forall i, j :: 0 <= i < j < |p.order| ==> p.order[i] != p.order[j])
  }

  /** The position held in `k`, 0 when `k` has no key. */
  function SharesOf(p: Positions, k: string): real
  {
    if k in p.shares then p.shares[k] else 0.0
  }

  /** One transaction applied to the positions (line 93): a new symbol gets a key at the end. */
  function Apply(p: Positions, t: Transaction): (q: Positions)
    requires WellFormed(p)
    ensures WellFormed(q)
  {
    if t.ticker in p.shares then Positions(p.order, p.shares[t.ticker := p.shares[t.ticker] + Delta(t)])
    else Positions(p.order + [t.ticker], p.shares[t.ticker := Delta(t)])
  }

  /**
   * A transaction moves its own symbol's position by its delta, appends its
   * key when the symbol is new, and touches nothing else.
   */
  lemma ApplyShares(p: Positions, t: Transaction)
    requires WellFormed(p)
    ensures SharesOf(Apply(p, t), t.ticker) == SharesOf(p, t.ticker) + Delta(t)
    ensures forall k :: k != t.ticker ==> SharesOf(Apply(p, t), k) == SharesOf(p, k)
    ensures Apply(p, t).shares.Keys == p.shares.Keys + {t.ticker}
    ensures t.ticker in p.shares ==> Apply(p, t).order == p.order
    ensures t.ticker !in p.shares ==> Apply(p, t).order == p.order + [t.ticker]
  {
  }

  /** The positions after applying `s` in order to an empty object. */
  function Replay(s: seq<Transaction>): (p: Positions)
    ensures WellFormed(p)
  {
    if s == [] then Positions([], map[]) else Apply(Replay(s[..|s| - 1]), s[|s| - 1])
  }

  lemma ReplaySnoc(s: seq<Transaction>, t: Transaction)
    ensures Replay(s + [t]) == Apply(Replay(s), t)
  {
    assert (s + [t])[..|s|] == s;
  }

  /** The day filter over one more element of `s` takes it exactly when it is dated `d`. */
  lemma DatedOnStep(prior: seq<Transaction>, s: seq<Transaction>, j: nat, d: string)
    requires j < |s|
    ensures prior + DatedOn(s[..j + 1], d) == (prior + DatedOn(s[..j], d)) + if s[j].date == d then [s[j]] else []
  {
    assert s[..j + 1][..j] == s[..j];
  }

  /** Net shares of `k` bought minus sold over the transactions of `s` dated up to `d`. */
  function NetShares(s: seq<Transaction>, k: string, d: string): real
  {
    if s == [] then 0.0
    else
      var t := s[|s| - 1];
      NetShares(s[..|s| - 1], k, d) + (if t.ticker == k && AtMost(t.date, d) then Delta(t) else 0.0)
  }

  /** The symbols traded in `s` on or before `d`. */
  function TickersUpTo(s: seq<Transaction>, d: string): set<string>
  {
    if s == [] then {}
    else TickersUpTo(s[..|s| - 1], d) + (if AtMost(s[|s| - 1].date, d) then {s[|s| - 1].ticker} else {})
  }

  lemma {:induction false} TickersUpToTraded(s: seq<Transaction>, d: string, k: string)
    ensures k in TickersUpTo(s, d) <==> exists t :: t in s && t.ticker == k && AtMost(t.date, d)
  {
    if s != [] {
      var init, x := s[..|s| - 1], s[|s| - 1];
      TickersUpToTraded(init, d, k);
      assert forall t :: t in s <==> t in init || t == x by {
        assert s == init + [x];
      }
    }
  }

  lemma {:induction false} ReplayUpTo(s: seq<Transaction>, k: string, d: string)
    ensures SharesOf(Replay(DatedUpTo(s, d)), k) == NetShares(s, k, d)
  {
    if s != [] {
      var init, x := s[..|s| - 1], s[|s| - 1];
      ReplayUpTo(init, k, d);
      var kept := DatedUpTo(init, d);
      assert NetShares(s, k, d) == NetShares(init, k, d) + (if x.ticker == k && AtMost(x.date, d) then Delta(x) else 0.0);
      if AtMost(x.date, d) {
        assert DatedUpTo(s, d) == kept + [x];
        ReplaySnoc(kept, x);
        ApplyShares(Replay(kept), x);
      } else {
        assert DatedUpTo(s, d) == kept;
      }
    }
  }

  lemma {:induction false} ReplayUpToKeys(s: seq<Transaction>, d: string)
    ensures Replay(DatedUpTo(s, d)).shares.Keys == TickersUpTo(s, d)
  {
    if s != [] {
      var init, x := s[..|s| - 1], s[|s| - 1];
      ReplayUpToKeys(init, d);
      var kept := DatedUpTo(init, d);
      if AtMost(x.date, d) {
        assert DatedUpTo(s, d) == kept + [x];
        ReplaySnoc(kept, x);
        ApplyShares(Replay(kept), x);
      } else {
        assert DatedUpTo(s, d) == kept;
      }
    }
  }

  lemma {:induction false} NetSharesAppend(a: seq<Transaction>, b: seq<Transaction>, k: string, d: string)
    ensures NetShares(a + b, k, d) == NetShares(a, k, d) + NetShares(b, k, d)
  {
    if b == [] {
      assert a + b == a;
    } else {
      assert (a + b)[..|a + b| - 1] == a + b[..|b| - 1];
      NetSharesAppend(a, b[..|b| - 1], k, d);
    }
  }

  lemma {:induction false} NetSharesInsert(t: Transaction, s: seq<Transaction>, k: string, d: string)
    ensures NetShares(Insert(t, s), k, d) == NetShares([t], k, d) + NetShares(s, k, d)
  {
    if s == [] {
    } else if AtMost(t.date, s[0].date) {
      NetSharesAppend([t], s, k, d);
    } else {
      NetSharesInsert(t, s[1..], k, d);
      NetSharesAppend([s[0]], Insert(t, s[1..]), k, d);
      NetSharesAppend([s[0]], s[1..], k, d);
      assert s == [s[0]] + s[1..];
    }
  }

  /** Sorting does not change what a symbol nets to. */
  lemma {:induction false} NetSharesSorted(txs: seq<Transaction>, k: string, d: string)
    ensures NetShares(SortByDate(txs), k, d) == NetShares(txs, k, d)
  {
    if txs != [] {
      NetSharesSorted(txs[1..], k, d);
      NetSharesInsert(txs[0], SortByDate(txs[1..]), k, d);
      NetSharesAppend([txs[0]], txs[1..], k, d);
      assert txs == [txs[0]] + txs[1..];
    }
  }

  /** The positions held once date `d` has been processed. */
  function PositionsOn(sorted: seq<Transaction>, d: string): (p: Positions)
    ensures WellFormed(p)
  {
    Replay(DatedUpTo(sorted, d))
  }

  /**
   * Along a strictly ascending axis holding every transaction date, the
   * positions before a date plus that date's transactions are the positions
   * on it, and are what the next date of the axis starts from.
   */
  lemma AxisStep(s: seq<Transaction>, ds: seq<string>, i: nat)
    requires SortedByDate(s) && StrictlyAscending(ds) && i < |ds|
    requires forall t :: t in s ==> t.date in ds
    ensures i == 0 ==> DatedBefore(s, ds[0]) == []
    ensures DatedBefore(s, ds[i]) + DatedOn(s, ds[i]) == DatedUpTo(s, ds[i])
    ensures i + 1 < |ds| ==> DatedBefore(s, ds[i + 1]) == DatedUpTo(s, ds[i])
  {
    assert forall j :: 0 <= j < |s| ==> s[j].date in ds by {
      assert forall j :: 0 <= j < |s| ==> s[j] in s;
    }
    BeforeOnAxis(s, ds, i);
    BeforeThenOn(s, ds[i]);
    if i + 1 < |ds| {
      var next := i + 1;
      BeforeOnAxis(s, ds, next);
      assert ds[next - 1] == ds[i];
    }
  }


  /**
   * On date `d`, the position in `k` is the Buy quantities minus the Sell
   * quantities of the transactions in `k` dated up to `d`, each counted once,
   * and `k` has a key exactly when such a transaction exists.
   */
  lemma PositionsOnNet(txs: seq<Transaction>, k: string, d: string)
    ensures SharesOf(PositionsOn(SortByDate(txs), d), k) == NetShares(txs, k, d)
    ensures k in PositionsOn(SortByDate(txs), d).shares <==> exists t :: t in txs && t.ticker == k && AtMost(t.date, d)
  {
    var sorted := SortByDate(txs);
    ReplayUpTo(sorted, k, d);
    ReplayUpToKeys(sorted, d);
    TickersUpToTraded(sorted, d, k);
    NetSharesSorted(txs, k, d);
    assert forall t :: t in sorted <==> t in txs by {
      assert forall t :: t in sorted <==> t in multiset(sorted);
    }
  }

  // ----- Choosing a price (lines 104-110) -----

  /** The stored close of `k` on `d` (line 104); a missing close and a close of 0 both give `None`. */
  function Quote(prices: PriceMap, k: string, d: string): (q: Option<real>)
    ensures q.Some? <==> k in prices && d in prices[k] && prices[k][d] != 0.0
    ensures q.Some? ==> q.value == prices[k][d]
  {
    if k in prices && d in prices[k] && prices[k][d] != 0.0 then Some(prices[k][d]) else None
  }

  /** The last transaction of `s` in symbol `k` dated on or before `d` (lines 106-108). */
  function LastTrade(s: seq<Transaction>, k: string, d: string): (r: Option<Transaction>)
    ensures r.Some? ==> r.value in s && r.value.ticker == k && AtMost(r.value.date, d)
  {
    if s == [] then None
    else
      var t := s[|s| - 1];
      if t.ticker == k && AtMost(t.date, d) then Some(t) else LastTrade(s[..|s| - 1], k, d)
  }

  /** No element of `s` after position `i` is in `k` and dated on or before `d`. */
  ghost predicate NoTradeAfter(s: seq<Transaction>, i: int, k: string, d: string)
  {
    forall j :: i < j < |s| && 0 <= j ==> !(s[j].ticker == k && AtMost(s[j].date, d))
  }

  /**
   * `LastTrade` is the `pop` of the filter: there is none iff no element
   * matches, and the one found is at a position after which nothing matches.
   */
  lemma {:induction false} LastTradeIsLast(s: seq<Transaction>, k: string, d: string)
    ensures LastTrade(s, k, d).None? <==> NoTradeAfter(s, -1, k, d)
    ensures LastTrade(s, k, d).Some? ==>
      exists i :: 0 <= i < |s| && s[i] == LastTrade(s, k, d).value && NoTradeAfter(s, i, k, d)
  {
    if s != [] {
      var init, x := s[..|s| - 1], s[|s| - 1];
      if x.ticker == k && AtMost(x.date, d) {
        assert s[|s| - 1] == LastTrade(s, k, d).value && NoTradeAfter(s, |s| - 1, k, d);
      } else {
        assert LastTrade(s, k, d) == LastTrade(init, k, d);
        LastTradeIsLast(init, k, d);
        forall i | -1 <= i < |init| && NoTradeAfter(init, i, k, d) ensures NoTradeAfter(s, i, k, d) {
          forall j | i < j < |s| && 0 <= j ensures !(s[j].ticker == k && AtMost(s[j].date, d)) {
            if j < |init| {
              assert s[j] == init[j];
            }
          }
        }
        if NoTradeAfter(s, -1, k, d) {
          forall j | -1 < j < |init| && 0 <= j ensures !(init[j].ticker == k && AtMost(init[j].date, d)) {
            assert s[j] == init[j];
          }
        }
        if LastTrade(init, k, d).Some? {
          var i :| 0 <= i < |init| && init[i] == LastTrade(init, k, d).value && NoTradeAfter(init, i, k, d);
          assert s[i] == init[i];
        }
      }
    }
  }

  /** On a sorted list, the last matching transaction carries the latest matching date. */
  lemma {:induction false} LastTradeOfSorted(s: seq<Transaction>, k: string, d: string)
    requires SortedByDate(s)
    ensures LastTrade(s, k, d).None? <==> forall t :: t in s ==> !(t.ticker == k && AtMost(t.date, d))
    ensures LastTrade(s, k, d).Some? ==>
      forall t :: t in s && t.ticker == k && AtMost(t.date, d) ==> AtMost(t.date, LastTrade(s, k, d).value.date)
  {
    if s != [] {
      var init, x := s[..|s| - 1], s[|s| - 1];
      assert SortedByDate(init);
      assert forall t :: t in s <==> t in init || t == x by {
        assert s == init + [x];
      }
      if x.ticker == k && AtMost(x.date, d) {
        forall t | t in s && t.ticker == k && AtMost(t.date, d) ensures AtMost(t.date, x.date) {
          var i :| 0 <= i < |s| && s[i] == t;
          if i == |s| - 1 {
            AtMostReflexive(t.date);
          }
        }
      } else {
        LastTradeOfSorted(init, k, d);
      }
    }
  }

  /**
   * The fallback of line 106: the transaction chosen from the date-sorted
   * list is a trade in `k` dated up to `d` with the latest such date, and
   * there is none exactly when no transaction in `k` is dated up to `d`.
   */
  lemma LastTradeLatest(txs: seq<Transaction>, k: string, d: string)
    ensures var r := LastTrade(SortByDate(txs), k, d);
      && (r.None? <==> forall t :: t in txs ==> !(t.ticker == k && AtMost(t.date, d)))
      && (r.Some? ==> r.value in txs && r.value.ticker == k && AtMost(r.value.date, d))
      && (r.Some? ==> forall t :: t in txs && t.ticker == k && AtMost(t.date, d) ==> AtMost(t.date, r.value.date))
  {
    var sorted := SortByDate(txs);
    SortByDateSorted(txs);
    LastTradeOfSorted(sorted, k, d);
    assert forall t :: t in sorted <==> t in txs by {
      assert forall t :: t in sorted <==> t in multiset(sorted);
    }
  }

  /** The price of `k` on `d`: the close, else the last trade's price, else 0. */
  function PriceAt(sorted: seq<Transaction>, prices: PriceMap, k: string, d: string): (p: real)
    ensures Quote(prices, k, d).Some? ==> p == prices[k][d]
    ensures Quote(prices, k, d).None? && LastTrade(sorted, k, d).Some? ==> p == LastTrade(sorted, k, d).value.price
    ensures Quote(prices, k, d).None? && LastTrade(sorted, k, d).None? ==> p == 0.0
  {
    match Quote(prices, k, d)
    case Some(close) => close
    case None =>
      match LastTrade(sorted, k, d)
      case Some(t) => t.price
      case None => 0.0
  }

  // ----- Valuing the positions (lines 96-115) -----

  /** A position's equity: its share count times its price on the day (line 111). */
  function EquityOf(shares: map<string, real>, k: string, sorted: seq<Transaction>, prices: PriceMap, d: string): real
    requires k in shares
  {
    shares[k] * PriceAt(sorted, prices, k, d)
  }

  /** `tempEquities`: shares times price for every key with a nonzero position, in key order. */
  function Equities(order: seq<string>, shares: map<string, real>, sorted: seq<Transaction>, prices: PriceMap, d: string): (hs: seq<Holding>)
    requires forall k :: k in order ==> k in shares
    ensures |hs| <= |order|
  {
    if order == [] then []
    else
      var k := order[|order| - 1];
      var rest := Equities(order[..|order| - 1], shares, sorted, prices, d);
      if shares[k] != 0.0 then rest + [Holding(k, EquityOf(shares, k, sorted, prices, d))] else rest
  }

  lemma EquitiesStep(order: seq<string>, j: nat, shares: map<string, real>, sorted: seq<Transaction>, prices: PriceMap, d: string)
    requires j < |order| && forall k :: k in order ==> k in shares
    ensures forall k :: k in order[..j + 1] ==> k in shares
    ensures Equities(order[..j + 1], shares, sorted, prices, d) ==
      Equities(order[..j], shares, sorted, prices, d)
        + (if shares[order[j]] != 0.0 then [Holding(order[j], EquityOf(shares, order[j], sorted, prices, d))] else [])
  {
    assert order[..j + 1][..j] == order[..j];
  }

  /** A position's equity is its share count times its price on the day. */
  lemma EquityOfProduct(shares: map<string, real>, k: string, sorted: seq<Transaction>, prices: PriceMap, d: string, n: real, price: real)
    requires k in shares && n == shares[k] && price == PriceAt(sorted, prices, k, d)
    ensures n * price == EquityOf(shares, k, sorted, prices, d)
  {
  }

  /** The sum of the equities, added left to right. */
  function Sum(hs: seq<Holding>): real
  {
    if hs == [] then 0.0 else Sum(hs[..|hs| - 1]) + hs[|hs| - 1].equity
  }

  lemma SumSnoc(hs: seq<Holding>, h: Holding)
    ensures Sum(hs + [h]) == Sum(hs) + h.equity
  {
    assert (hs + [h])[..|hs|] == hs;
  }

  /** Shares times price over every key, zero positions included. */
  function MarketValue(order: seq<string>, shares: map<string, real>, sorted: seq<Transaction>, prices: PriceMap, d: string): real
    requires forall k :: k in order ==> k in shares
  {
    if order == [] then 0.0
    else
      var k := order[|order| - 1];
      MarketValue(order[..|order| - 1], shares, sorted, prices, d) + EquityOf(shares, k, sorted, prices, d)
  }

  /** Leaving out the zero positions does not change the total: they contribute nothing. */
  lemma {:induction false} TotalIsMarketValue(order: seq<string>, shares: map<string, real>, sorted: seq<Transaction>, prices: PriceMap, d: string)
    requires forall k :: k in order ==> k in shares
    ensures Sum(Equities(order, shares, sorted, prices, d)) == MarketValue(order, shares, sorted, prices, d)
  {
    if order != [] {
      var init := order[..|order| - 1];
      var k := order[|order| - 1];
      TotalIsMarketValue(init, shares, sorted, prices, d);
      var rest := Equities(init, shares, sorted, prices, d);
      if shares[k] != 0.0 {
        var h := Holding(k, EquityOf(shares, k, sorted, prices, d));
        assert (rest + [h])[..|rest|] == rest;
      }
    }
  }

  /**
   * The entries of `tempEquities` are exactly the keys with a nonzero
   * position, each valued at shares times price.
   */
  lemma {:induction false} EquitiesNonzero(order: seq<string>, shares: map<string, real>, sorted: seq<Transaction>, prices: PriceMap, d: string)
    requires forall k :: k in order ==> k in shares
    ensures forall h :: h in Equities(order, shares, sorted, prices, d) <==>
      h.ticker in order && shares[h.ticker] != 0.0 && h.equity == EquityOf(shares, h.ticker, sorted, prices, d)
  {
    if order != [] {
      var init := order[..|order| - 1];
      var k := order[|order| - 1];
      EquitiesNonzero(init, shares, sorted, prices, d);
      assert forall j :: j in order <==> j in init || j == k by {
        assert order == init + [k];
      }
    }
  }

  // ----- Splitting into main holdings and Others (lines 118-146) -----

  /** A holding's share of the total, in percent (line 129). */
  function Percentage(equity: real, total: real): real
    requires total != 0.0
  {
    (equity / total) * 100.0
  }

  /** For a positive total, reaching the threshold means holding at least a hundredth of it. */
  lemma PercentageThreshold(equity: real, total: real)
    requires total > 0.0
    ensures Percentage(equity, total) >= ThresholdPercent <==> equity * 100.0 >= total
  {
    calc {
      Percentage(equity, total);
      (equity / total) * 100.0;
      (equity * 100.0) / total;
    }
    if equity * 100.0 >= total {
      assert (equity * 100.0) / total >= total / total;
    } else {
      assert (equity * 100.0) / total < total / total;
    }
  }

  /** `mainHoldings`: the entries at or above the threshold. */
  function MainHoldings(hs: seq<Holding>, total: real): seq<Holding>
    requires total != 0.0
  {
    if hs == [] then []
    else
      var h := hs[|hs| - 1];
      MainHoldings(hs[..|hs| - 1], total) + (if Percentage(h.equity, total) >= ThresholdPercent then [h] else [])
  }

  /** `otherHoldings`: the entries below the threshold. */
  function MinorHoldings(hs: seq<Holding>, total: real): seq<Holding>
    requires total != 0.0
  {
    if hs == [] then []
    else
      var h := hs[|hs| - 1];
      MinorHoldings(hs[..|hs| - 1], total) + (if Percentage(h.equity, total) < ThresholdPercent then [h] else [])
  }

  /** Every entry is in exactly one of the two groups, decided by the threshold. */
  lemma {:induction false} SplitMembership(hs: seq<Holding>, total: real)
    requires total != 0.0
    ensures forall h :: h in MainHoldings(hs, total) <==> h in hs && Percentage(h.equity, total) >= ThresholdPercent
    ensures forall h :: h in MinorHoldings(hs, total) <==> h in hs && Percentage(h.equity, total) < ThresholdPercent
  {
    if hs != [] {
      var init, x := hs[..|hs| - 1], hs[|hs| - 1];
      SplitMembership(init, total);
      assert forall h :: h in hs <==> h in init || h == x by {
        assert hs == init + [x];
      }
    }
  }

  /** The two groups together add up to the whole. */
  lemma {:induction false} SplitSum(hs: seq<Holding>, total: real)
    requires total != 0.0
    ensures Sum(MainHoldings(hs, total)) + Sum(MinorHoldings(hs, total)) == Sum(hs)
  {
    if hs != [] {
      var init, x := hs[..|hs| - 1], hs[|hs| - 1];
      SplitSum(init, total);
      var m, o := MainHoldings(init, total), MinorHoldings(init, total);
      if Percentage(x.equity, total) >= ThresholdPercent {
        assert MainHoldings(hs, total) == m + [x] && MinorHoldings(hs, total) == o;
        SumSnoc(m, x);
      } else {
        assert MainHoldings(hs, total) == m && MinorHoldings(hs, total) == o + [x];
        SumSnoc(o, x);
      }
    }
  }

  lemma {:induction false} SumNonnegative(hs: seq<Holding>)
    requires forall h :: h in hs ==> h.equity >= 0.0
    ensures Sum(hs) >= 0.0
  {
    if hs != [] {
      assert hs[|hs| - 1] in hs;
      assert forall h :: h in hs[..|hs| - 1] ==> h in hs;
      SumNonnegative(hs[..|hs| - 1]);
    }
  }

  /** `Others_equity`: the sum of the minor entries, present only when it is positive. */
  function OthersField(hs: seq<Holding>, total: real): (o: Option<real>)
    requires total != 0.0
    ensures o == if Sum(MinorHoldings(hs, total)) > 0.0 then Some(Sum(MinorHoldings(hs, total))) else None
  {
    var minor := MinorHoldings(hs, total);
    if |minor| > 0 then
      var othersEquity := Sum(minor);
      if othersEquity > 0.0 then Some(othersEquity) else None
    else None
  }

  /** The `dataPoint` of one date, given its equities and their total. */
  function Split(d: string, total: real, hs: seq<Holding>): (p: ChartPoint)
    ensures p.date == d && p.totalEquity == total
    ensures total <= 0.0 ==> p.holdings == [] && p.others == None
    ensures total > 0.0 ==> forall h :: h in p.holdings <==> h in hs && h.equity * 100.0 >= total
    ensures total > 0.0 ==> forall h :: h in hs && h.equity * 100.0 < total ==> h !in p.holdings
    ensures total > 0.0 ==> p.others == if Sum(MinorHoldings(hs, total)) > 0.0 then Some(Sum(MinorHoldings(hs, total))) else None
  {
    if total > 0.0 then
      SplitMembership(hs, total);
      assert forall h :: h in hs ==> (Percentage(h.equity, total) >= ThresholdPercent <==> h.equity * 100.0 >= total) by {
        forall h | h in hs ensures Percentage(h.equity, total) >= ThresholdPercent <==> h.equity * 100.0 >= total {
          PercentageThreshold(h.equity, total);
        }
      }
      ChartPoint(d, total, MainHoldings(hs, total), OthersField(hs, total))
    else ChartPoint(d, total, [], None)
  }

  /**
   * When every equity is nonnegative and the total is positive, the
   * `<symbol>_equity` fields and `Others_equity` add up to `totalEquity`.
   */
  lemma FieldsAddUp(d: string, hs: seq<Holding>)
    requires forall h :: h in hs ==> h.equity >= 0.0
    requires Sum(hs) > 0.0
    ensures var p := Split(d, Sum(hs), hs);
      Sum(p.holdings) + (if p.others.Some? then p.others.value else 0.0) == p.totalEquity
  {
    var total := Sum(hs);
    SplitSum(hs, total);
    SplitMembership(hs, total);
    SumNonnegative(MinorHoldings(hs, total));
  }

  /** The chart point of date `d`. */
  function Point(sorted: seq<Transaction>, prices: PriceMap, d: string): (p: ChartPoint)
    ensures p.date == d
  {
    var pos := PositionsOn(sorted, d);
    var hs := Equities(pos.order, pos.shares, sorted, prices, d);
    Split(d, Sum(hs), hs)
  }

  /**
   * What a chart point holds, in terms of the positions on its date: the
   * total is the market value of every position, and with a positive total a
   * symbol has its own field iff its position is nonzero and its equity
   * reaches 1 % of the total; with a total of 0 or less there are no fields.
   */
  lemma PointValues(sorted: seq<Transaction>, prices: PriceMap, d: string)
    ensures var pos, p := PositionsOn(sorted, d), Point(sorted, prices, d);
      && p.date == d
      && p.totalEquity == MarketValue(pos.order, pos.shares, sorted, prices, d)
      && (p.totalEquity <= 0.0 ==> p.holdings == [] && p.others == None)
      && (p.totalEquity > 0.0 ==> forall h :: h in p.holdings <==>
            && h.ticker in pos.order && pos.shares[h.ticker] != 0.0
            && h.equity == EquityOf(pos.shares, h.ticker, sorted, prices, d)
            && h.equity * 100.0 >= p.totalEquity)
  {
    var pos := PositionsOn(sorted, d);
    TotalIsMarketValue(pos.order, pos.shares, sorted, prices, d);
    EquitiesNonzero(pos.order, pos.shares, sorted, prices, d);
  }

  /** One point per date of `ds`, in the order of `ds`. */
  function Chart(sorted: seq<Transaction>, prices: PriceMap, ds: seq<string>): (c: seq<ChartPoint>)
    ensures |c| == |ds|
  {
    if ds == [] then [] else Chart(sorted, prices, ds[..|ds| - 1]) + [Point(sorted, prices, ds[|ds| - 1])]
  }

  /** The chart's `j`-th point is the point of the `j`-th date. */
  lemma {:induction false} ChartPoints(sorted: seq<Transaction>, prices: PriceMap, ds: seq<string>)
    ensures forall j :: 0 <= j < |ds| ==> Chart(sorted, prices, ds)[j] == Point(sorted, prices, ds[j])
  {
    if ds != [] {
      var init := ds[..|ds| - 1];
      var c, front := Chart(sorted, prices, ds), Chart(sorted, prices, init);
      var last := Point(sorted, prices, ds[|ds| - 1]);
      assert c == front + [last];
      ChartPoints(sorted, prices, init);
      forall j | 0 <= j < |ds| ensures c[j] == Point(sorted, prices, ds[j]) {
        if j < |init| {
          assert c[j] == front[j] && init[j] == ds[j];
        } else {
          assert c[j] == last;
        }
      }
    }
  }


  lemma ChartStep(sorted: seq<Transaction>, prices: PriceMap, ds: seq<string>, i: nat)
    requires i < |ds|
    ensures Chart(sorted, prices, ds[..i + 1]) == Chart(sorted, prices, ds[..i]) + [Point(sorted, prices, ds[i])]
  {
    assert ds[..i + 1][..i] == ds[..i];
  }

  /** Every date of the transactions and of every symbol's price series. */
  function DateSet(txs: seq<Transaction>, prices: PriceMap): set<string>
  {
    (set t | t in txs :: t.date) + (set k, d | k in prices && d in prices[k] :: d)
  }

  /** Sorting changes neither the transaction dates nor, so, the date set. */
  lemma SortedDateSet(txs: seq<Transaction>, prices: PriceMap)
    ensures DateSet(SortByDate(txs), prices) == DateSet(txs, prices)
    ensures forall t :: t in SortByDate(txs) ==> t.date in DateSet(txs, prices)
  {
    var sorted := SortByDate(txs);
    assert forall t :: t in sorted <==> t in txs by {
      assert forall t :: t in sorted <==> t in multiset(sorted);
    }
  }
}
