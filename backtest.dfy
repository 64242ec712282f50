/** The two trade simulators: the pip-based one (`trade_simulation`) and the
    share-based one (`stock_trade_simulation`).  Both group the rows with
    `Segmentation`, price every record, keep the records of the side they
    trade, and add the running equity. */
module Backtest {
  import opened Common
  import opened Series
  import opened Segmentation

  /** A row of the pip-based trade table: the grouped columns, pnl and equity. */
  datatype Trade = Trade(seg: Segment, pnl: real, equity: real)

  /** A row of the share-based trade table. */
  datatype StockTrade = StockTrade(seg: Segment, shares: real, profit: real,
                                   commission: real, pnl: real, equity: real)

  /** The records whose type `keep` accepts, in their order. */
  function Select(raws: seq<Segment>, keep: int -> bool): (kept: seq<Segment>)
    ensures |kept| <= |raws|
    ensures forall s :: s in kept <==> s in raws && keep(s.kind)
  {
    if raws == [] then []
    else
      var last := raws[|raws| - 1];
      assert raws == raws[..|raws| - 1] + [last];
      Select(raws[..|raws| - 1], keep) + (if keep(last.kind) then [last] else [])
  }

  lemma SelectSnoc(raws: seq<Segment>, s: Segment, keep: int -> bool)
    ensures Select(raws + [s], keep) == Select(raws, keep) + (if keep(s.kind) then [s] else [])
  {
    assert (raws + [s])[..|raws|] == raws;
  }

  /** Filtering a concatenation filters each part and keeps the parts in
      order; with the one-record case below this fixes the order and the
      repeats of the kept records. */
  lemma {:induction false} SelectAppend(a: seq<Segment>, b: seq<Segment>, keep: int -> bool)
    ensures Select(a + b, keep) == Select(a, keep) + Select(b, keep)
    decreases |b|
  {
    if b == [] {
      assert a + b == a;
    } else {
      var init, s := b[..|b| - 1], b[|b| - 1];
      assert b == init + [s];
      assert a + b == (a + init) + [s];
      SelectAppend(a, init, keep);
      SelectSnoc(a + init, s, keep);
      SelectSnoc(init, s, keep);
    }
  }

  /** A single record is kept exactly when its type is accepted. */
  lemma SelectSingleton(s: Segment, keep: int -> bool)
    ensures Select([s], keep) == if keep(s.kind) then [s] else []
  {
    assert [s][..0] == [];
  }

  /** The pip simulator keeps every record that holds a position. */
  predicate IsPosition(kind: int) { kind != 0 }

  /** The share simulator keeps only the buy records. */
  predicate IsLong(kind: int) { kind == 1 }

  // ---------------------------------------------------------------------
  // Pip-based pricing

  /** `10 ** digit` for an integer exponent, a fraction when it is negative. */
  function Pow10(digit: int): (r: real)
    ensures r > 0.0
    ensures digit >= 0 ==> r >= 1.0
    decreases if digit < 0 then -digit else digit
  {
    if digit == 0 then 1.0
    else if digit > 0 then 10.0 * Pow10(digit - 1)
    else Pow10(digit + 1) / 10.0
  }

  /** The pnl of one trade: the price move in the trade's direction, scaled
      to pips, times the value of a pip, less the commission. */
  function PipPnl(s: Segment, digit: int, pipProfit: real, commission: real): real
  {
    (s.closePrice - s.openPrice) * (s.kind as real) * Pow10(digit) * pipProfit - commission
  }

  /** One numeric column of a trade table, in row order. */
  function ColumnValues<R>(rows: seq<R>, field: R -> real): (col: seq<real>)
    ensures |col| == |rows|
  {
    seq(|rows|, i requires 0 <= i < |rows| => field(rows[i]))
  }

  /** The equity after the last trade, zero for an empty table. */
  function FinalEquity<R>(rows: seq<R>, equity: R -> real): real
  {
    if rows == [] then 0.0 else equity(rows[|rows| - 1])
  }

  function TradePnl(t: Trade): real { t.pnl }
  function TradeEquity(t: Trade): real { t.equity }

  /** The pip trade table, built the way the running-equity loop builds it:
      each record that holds a position adds a trade whose equity carries on
      from the previous one. */
  function PipLedger(raws: seq<Segment>, digit: int, pipProfit: real, commission: real): seq<Trade>
  {
    if raws == [] then []
    else
      var prev := PipLedger(raws[..|raws| - 1], digit, pipProfit, commission);
      var s := raws[|raws| - 1];
      if s.kind != 0 then
        var pnl := PipPnl(s, digit, pipProfit, commission);
        prev + [Trade(s, pnl, FinalEquity(prev, TradeEquity) + pnl)]
      else prev
  }

  /** Adding a row whose equity is the previous equity plus its pnl keeps the
      equity column equal to the cumulative sum of the pnl column. */
  lemma EquitySnoc<R>(prev: seq<R>, rows: seq<R>, pnl: R -> real, equity: R -> real)
    requires |rows| == |prev| + 1 && rows[..|prev|] == prev
    requires ColumnValues(prev, equity) == CumSum(ColumnValues(prev, pnl))
    requires equity(rows[|prev|]) == FinalEquity(prev, equity) + pnl(rows[|prev|])
    ensures ColumnValues(rows, equity) == CumSum(ColumnValues(rows, pnl))
  {
    var n, pnls := |prev|, ColumnValues(prev, pnl);
    assert ColumnValues(rows, pnl) == pnls + [pnl(rows[n])];
    assert ColumnValues(rows, equity) == ColumnValues(prev, equity) + [equity(rows[n])];
    CumSumSnoc(pnls, pnl(rows[n]));
    if n > 0 {
      assert pnls[..n] == pnls;
      assert equity(prev[n - 1]) == CumSum(pnls)[n - 1];
    }
  }

  /** The pip trade table is the pandas pipeline's: the records that hold a
      position, in their order, each priced in pips, with the equity column
      the cumulative sum of the pnl column. */
  lemma {:induction false} PipLedgerColumns(raws: seq<Segment>, digit: int, pipProfit: real, commission: real)
    ensures var ledger, kept := PipLedger(raws, digit, pipProfit, commission), Select(raws, IsPosition);
            |ledger| == |kept| &&
            (forall i :: 0 <= i < |ledger| ==>
               ledger[i].seg == kept[i] && ledger[i].pnl == PipPnl(kept[i], digit, pipProfit, commission)) &&
            ColumnValues(ledger, TradeEquity) == CumSum(ColumnValues(ledger, TradePnl))
  {
    if raws != [] {
      var init, s := raws[..|raws| - 1], raws[|raws| - 1];
      assert raws == init + [s];
      PipLedgerColumns(init, digit, pipProfit, commission);
      SelectSnoc(init, s, IsPosition);
      var prev := PipLedger(init, digit, pipProfit, commission);
      if s.kind != 0 {
        var rows := PipLedger(raws, digit, pipProfit, commission);
        assert rows[..|prev|] == prev;
        EquitySnoc(prev, rows, TradePnl, TradeEquity);
      }
    }
  }

  /** A record appears in the pip trade table exactly when it holds a position. */
  lemma PipLedgerMembers(raws: seq<Segment>, digit: int, pipProfit: real, commission: real, s: Segment)
    ensures (exists i :: 0 <= i < |PipLedger(raws, digit, pipProfit, commission)| &&
                         PipLedger(raws, digit, pipProfit, commission)[i].seg == s)
            <==> s in raws && s.kind != 0
  {
    PipLedgerColumns(raws, digit, pipProfit, commission);
    var kept := Select(raws, IsPosition);
    if s in kept {
      var i :| 0 <= i < |kept| && kept[i] == s;
    }
  }

  /** The running-equity loop over the grouped records. */
  method SettlePips(raws: seq<Segment>, digit: int, pipProfit: real, commission: real)
    returns (ledger: seq<Trade>)
    ensures ledger == PipLedger(raws, digit, pipProfit, commission)
  {
    ledger := [];
    var equity := 0.0;
    for i := 0 to |raws|
      invariant ledger == PipLedger(raws[..i], digit, pipProfit, commission)
      invariant equity == FinalEquity(ledger, TradeEquity)
    {
      assert raws[..i + 1][..i] == raws[..i];
      if raws[i].kind != 0 {
        var pnl := PipPnl(raws[i], digit, pipProfit, commission);
        equity := equity + pnl;
        ledger := ledger + [Trade(raws[i], pnl, equity)];
      }
    }
    assert raws[..|raws|] == raws;
  }

  /** Before commission, a trade gains exactly when the price moved its way:
      up for a buy, down for a sell. */
  lemma PipPnlSign(s: Segment, digit: int, pipProfit: real, commission: real)
    requires s.kind == 1 || s.kind == -1
    requires pipProfit > 0.0
    ensures PipPnl(s, digit, pipProfit, commission) + commission > 0.0 <==>
            (s.kind == 1 && s.closePrice > s.openPrice) || (s.kind == -1 && s.closePrice < s.openPrice)
  {
    var scale := Pow10(digit) * pipProfit;
    assert scale > 0.0;
    var move := (s.closePrice - s.openPrice) * (s.kind as real);
    assert PipPnl(s, digit, pipProfit, commission) + commission == move * scale;
    assert move * scale > 0.0 <==> move > 0.0;
  }

  /** Taking the other side of the same prices mirrors the gross pnl. */
  lemma PipPnlMirror(s: Segment, digit: int, pipProfit: real, commission: real)
    ensures PipPnl(s.(kind := -s.kind), digit, pipProfit, commission) + commission ==
            -(PipPnl(s, digit, pipProfit, commission) + commission)
  {
    var scale := Pow10(digit) * pipProfit;
    assert PipPnl(s, digit, pipProfit, commission) + commission ==
           ((s.closePrice - s.openPrice) * (s.kind as real)) * scale;
    assert PipPnl(s.(kind := -s.kind), digit, pipProfit, commission) + commission ==
           ((s.closePrice - s.openPrice) * (-s.kind as real)) * scale;
  }

  /** Bars with signals 0,0,1,1,1,-1,-1 and closes 10,10,11,12,13,12,11. */
  function ExampleBars(): seq<Bar>
  {
    [Bar(0, 10.0, 0), Bar(1, 10.0, 0), Bar(2, 11.0, 1), Bar(3, 12.0, 1),
     Bar(4, 13.0, 1), Bar(5, 12.0, -1), Bar(6, 11.0, -1)]
  }

  /** The example groups into the flat run and the buy run; the final sell
      run is still open and is dropped. */
  lemma ExampleGrouped()
    ensures Grouped(ExampleBars()) == [Segment(0, 0, 10.0, 2, 11.0, 2), Segment(1, 2, 11.0, 5, 12.0, 3)]
  {
    var bars := ExampleBars();
    var signals := Signals(bars);
    assert signals == [0, 0, 1, 1, 1, -1, -1];
    IdsStep(signals, 0);
    IdsStep(signals, 1);
    IdsStep(signals, 2);
    ClosedRunIsTrade(bars, 0, 1);
    ClosedRunIsTrade(bars, 2, 4);
  }

  /** The buy run from row 2 to row 4 is the one trade, opened at 11 and
      closed at 12, worth 10 pips at one decimal digit. */
  lemma PipExample()
    ensures PipLedger(Grouped(ExampleBars()), 1, 1.0, 0.0) ==
            [Trade(Segment(1, 2, 11.0, 5, 12.0, 3), 10.0, 10.0)]
  {
    ExampleGrouped();
    var raws := [Segment(0, 0, 10.0, 2, 11.0, 2), Segment(1, 2, 11.0, 5, 12.0, 3)];
    assert Pow10(1) == 10.0;
    assert raws[..1] == [raws[0]];
    assert raws[..1][..0] == [];
  }

  /** The columns `trade_simulation` reads, in the order it first touches them. */
  const PIP_COLUMNS: seq<string> := ["signal", "time", "close"]

  /** `trade_simulation`: the schema check, the failure on an empty table,
      then the grouped records priced in pips. */
  method TradeSimulation(table: Table<Bar>, digit: int, pipProfit: real, commission: real)
    returns (r: Result<seq<Trade>>)
    ensures FirstMissing(table.columns, PIP_COLUMNS).Some? ==>
              r == Failure(MissingColumn(FirstMissing(table.columns, PIP_COLUMNS).value))
    ensures FirstMissing(table.columns, PIP_COLUMNS).None? && table.rows == [] ==>
              r == Failure(EmptyInput)
    ensures FirstMissing(table.columns, PIP_COLUMNS).None? && table.rows != [] ==>
              r == Success(PipLedger(Grouped(table.rows), digit, pipProfit, commission))
  {
    var missing := FirstMissing(table.columns, PIP_COLUMNS);
    if missing.Some? {
      return Failure(MissingColumn(missing.value));
    }
    if |table.rows| == 0 {
      return Failure(EmptyInput);
    }
    var raws := CompleteSegments(table.rows);
    var ledger := SettlePips(raws, digit, pipProfit, commission);
    return Success(ledger);
  }

  // ---------------------------------------------------------------------
  // Share-based pricing

  /** Rounding to the nearest integer, ties to the even neighbour, as numpy
      rounds. */
  function RoundHalfEven(x: real): (n: int)
    ensures -0.5 <= x - n as real <= 0.5
    ensures (x - n as real == 0.5 || x - n as real == -0.5) ==> n % 2 == 0
  {
    var f := x.Floor;
    var d := x - f as real;
    if d < 0.5 then f
    else if d > 0.5 then f + 1
    else if f % 2 == 0 then f
    else f + 1
  }

  /** Those two properties fix the rounded value. */
  lemma RoundHalfEvenUnique(x: real, n: int)
    requires -0.5 <= x - n as real <= 0.5
    requires (x - n as real == 0.5 || x - n as real == -0.5) ==> n % 2 == 0
    ensures n == RoundHalfEven(x)
  {
  }

  /** `round(x, 2)`: to the nearest cent, ties to an even number of cents. */
  function RoundCents(x: real): (r: real)
    ensures -0.005 <= r - x <= 0.005
  {
    RoundHalfEven(x * 100.0) as real / 100.0
  }

  /** An amount in whole cents is left as it is. */
  lemma WholeCentsUnchanged(cents: int)
    ensures RoundCents(cents as real / 100.0) == cents as real / 100.0
  {
    assert (cents as real / 100.0) * 100.0 == cents as real;
    RoundHalfEvenUnique(cents as real, cents);
  }

  /** The profit column: the price move times the number of shares. */
  function Profit(s: Segment, shares: real): real
  {
    (s.closePrice - s.openPrice) * shares
  }

  /** The commission column: a percentage of the bought value, taxed at a
      percentage rate, rounded to the cent. */
  function Fee(s: Segment, shares: real, commission: real, vat: real): real
  {
    RoundCents(s.openPrice * shares * (commission / 100.0) * (vat / 100.0))
  }

  /** Rounding to the cent keeps a non-negative amount non-negative. */
  lemma RoundCentsNonNegative(x: real)
    requires x >= 0.0
    ensures RoundCents(x) >= 0.0
  {
    var n := RoundHalfEven(x * 100.0);
    assert n as real >= x * 100.0 - 0.5;
  }

  /** The commission of a trade is never negative when the price, the shares
      and both rates are not. */
  lemma FeeNonNegative(s: Segment, shares: real, commission: real, vat: real)
    requires s.openPrice >= 0.0 && shares >= 0.0 && commission >= 0.0 && vat >= 0.0
    ensures Fee(s, shares, commission, vat) >= 0.0
  {
    var a := s.openPrice * shares;
    assert a >= 0.0;
    var b := a * (commission / 100.0);
    assert b >= 0.0;
    assert b * (vat / 100.0) >= 0.0;
    RoundCentsNonNegative(b * (vat / 100.0));
  }

  function StockPnl(t: StockTrade): real { t.pnl }
  function StockEquity(t: StockTrade): real { t.equity }

  /** The share trade table, built the way the running-equity loop builds
      it: each buy record adds a trade whose equity carries on from the
      previous one. */
  function StockLedger(raws: seq<Segment>, shares: real, commission: real, vat: real): seq<StockTrade>
  {
    if raws == [] then []
    else
      var prev := StockLedger(raws[..|raws| - 1], shares, commission, vat);
      var s := raws[|raws| - 1];
      if s.kind == 1 then
        var profit, fee := Profit(s, shares), Fee(s, shares, commission, vat);
        prev + [StockTrade(s, shares, profit, fee, profit - fee, FinalEquity(prev, StockEquity) + (profit - fee))]
      else prev
  }

  /** The share trade table is the pandas pipeline's: the buy records, in
      their order, with the shares, profit, commission and pnl columns, and
      the equity column the cumulative sum of the pnl column. */
  lemma {:induction false} StockLedgerColumns(raws: seq<Segment>, shares: real, commission: real, vat: real)
    ensures var ledger, kept := StockLedger(raws, shares, commission, vat), Select(raws, IsLong);
            |ledger| == |kept| &&
            (forall i :: 0 <= i < |ledger| ==>
               var t := ledger[i];
               t.seg == kept[i] && t.shares == shares && t.profit == Profit(kept[i], shares) &&
               t.commission == Fee(kept[i], shares, commission, vat) && t.pnl == t.profit - t.commission) &&
            ColumnValues(ledger, StockEquity) == CumSum(ColumnValues(ledger, StockPnl))
  {
    if raws != [] {
      var init, s := raws[..|raws| - 1], raws[|raws| - 1];
      assert raws == init + [s];
      StockLedgerColumns(init, shares, commission, vat);
      SelectSnoc(init, s, IsLong);
      var prev := StockLedger(init, shares, commission, vat);
      if s.kind == 1 {
        var rows := StockLedger(raws, shares, commission, vat);
        assert rows[..|prev|] == prev;
        EquitySnoc(prev, rows, StockPnl, StockEquity);
      }
    }
  }

  /** A record appears in the share trade table exactly when it is a buy. */
  lemma StockLedgerMembers(raws: seq<Segment>, shares: real, commission: real, vat: real, s: Segment)
    ensures (exists i :: 0 <= i < |StockLedger(raws, shares, commission, vat)| &&
                         StockLedger(raws, shares, commission, vat)[i].seg == s)
            <==> s in raws && s.kind == 1
  {
    StockLedgerColumns(raws, shares, commission, vat);
    var kept := Select(raws, IsLong);
    if s in kept {
      var i :| 0 <= i < |kept| && kept[i] == s;
    }
  }

  method SettleShares(raws: seq<Segment>, shares: real, commission: real, vat: real)
    returns (ledger: seq<StockTrade>)
    ensures ledger == StockLedger(raws, shares, commission, vat)
  {
    ledger := [];
    var equity := 0.0;
    for i := 0 to |raws|
      invariant ledger == StockLedger(raws[..i], shares, commission, vat)
      invariant equity == FinalEquity(ledger, StockEquity)
    {
      assert raws[..i + 1][..i] == raws[..i];
      if raws[i].kind == 1 {
        var profit := Profit(raws[i], shares);
        var fee := Fee(raws[i], shares, commission, vat);
        equity := equity + (profit - fee);
        ledger := ledger + [StockTrade(raws[i], shares, profit, fee, profit - fee, equity)];
      }
    }
    assert raws[..|raws|] == raws;
  }

  /** The columns `stock_trade_simulation` asserts, in order. */
  const STOCK_COLUMNS: seq<string> := ["time", "open", "high", "low", "close", "signal"]

  /** `stock_trade_simulation`: the schema check, the failure on an empty
      table, then the grouped buy records priced per share. */
  method StockTradeSimulation(table: Table<Bar>, shares: real, commission: real, vat: real)
    returns (r: Result<seq<StockTrade>>)
    ensures FirstMissing(table.columns, STOCK_COLUMNS).Some? ==>
              r == Failure(MissingColumn(FirstMissing(table.columns, STOCK_COLUMNS).value))
    ensures FirstMissing(table.columns, STOCK_COLUMNS).None? && table.rows == [] ==>
              r == Failure(EmptyInput)
    ensures FirstMissing(table.columns, STOCK_COLUMNS).None? && table.rows != [] ==>
              r == Success(StockLedger(Grouped(table.rows), shares, commission, vat))
  {
    var missing := FirstMissing(table.columns, STOCK_COLUMNS);
    if missing.Some? {
      return Failure(MissingColumn(missing.value));
    }
    if |table.rows| == 0 {
      return Failure(EmptyInput);
    }
    var raws := CompleteSegments(table.rows);
    var ledger := SettleShares(raws, shares, commission, vat);
    return Success(ledger);
  }
}
