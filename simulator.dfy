/** The per-tick state transition `advanceTick`: resolve the tick's date on
    a reference series, execute pending buys at the open, revalue every
    position at the close, optionally reinvest dividends, record a snapshot
    and move the date cursor. */
module Simulator {
  import opened Wrappers
  import opened Types
  import opened Dividends

  datatype TradeAction = Buy | Sell

  /** A trade intent, consumed (executed or dropped) on the next tick. */
  datatype PendingTrade = PendingTrade(ticker: string, action: TradeAction, amount: real, source: string)

  /** The fixed parameters of one run (allocations and rules are not part of this model). */
  datatype SimulationConfig = SimulationConfig(
    startingCapital: real,
    scenario: Scenario,
    mode: string,
    granularity: string,
    drip: bool)

  /** The portfolio's value at the end of one processed tick. */
  datatype Snapshot = Snapshot(date: string, totalValue: real, cashBalance: real, cumulativeReturn: real)

  datatype SimulationState = SimulationState(
    config: SimulationConfig,
    currentDateIndex: nat,
    portfolio: Portfolio,
    history: seq<Snapshot>,
    pendingTrades: seq<PendingTrade>,
    isComplete: bool)

  /** A fresh all-cash portfolio. */
  function CreatePortfolio(capital: real): (p: Portfolio)
    ensures Consistent(p) && p.positions == []
    ensures p.cashBalance == p.startingValue == capital
  {
    Portfolio([], capital, capital, capital)
  }

  /** The state a run starts from: cursor 0, no history, nothing pending. */
  function InitialState(config: SimulationConfig, portfolio: Portfolio, pending: seq<PendingTrade>): SimulationState
  {
    SimulationState(config, 0, portfolio, [], pending, false)
  }

  /** The series that anchors the scenario's calendar; empty when absent. */
  function ReferenceSeries(pd: PriceData, anchor: string): seq<PricePoint>
  {
    if anchor in pd then pd[anchor] else []
  }

  // ---------------------------------------------------------------------------
  // Trade execution
  // ---------------------------------------------------------------------------

  /** The index of the position holding `ticker`, if any. */
  function FindPosition(ps: seq<Position>, ticker: string): (r: Option<nat>)
    ensures r.Some? ==> r.value < |ps| && ps[r.value].ticker == ticker
    ensures r.Some? ==> forall j :: 0 <= j < r.value ==> ps[j].ticker != ticker
    ensures r.None? ==> forall j :: 0 <= j < |ps| ==> ps[j].ticker != ticker
  {
    if ps == [] then None
    else if ps[0].ticker == ticker then Some(0)
    else
      var rest := FindPosition(ps[1..], ticker);
      if rest.None? then None else Some(rest.value + 1)
  }

  /** The opening price at which a buy of `ticker` executes this tick, if
      the ticker has a positive open here. */
  function BuyPrice(pd: PriceData, ticker: string, dateIndex: int): (r: Option<real>)
    ensures r.Some? ==> r.value > 0.0
    ensures r.Some? <==> PointAt(pd, ticker, dateIndex).Some? && PointAt(pd, ticker, dateIndex).value.open > 0.0
  {
    var pt := PointAt(pd, ticker, dateIndex);
    if pt.Some? && pt.value.open > 0.0 then Some(pt.value.open) else None
  }

  /** One pending trade. A buy spends `amount` on `amount / open` units,
      added to the existing position or opening a new one at the open
      price; a buy without a positive open is dropped. A sell leaves the
      portfolio as it is. */
  function ExecuteTrade(p: Portfolio, t: PendingTrade, pd: PriceData, dateIndex: int, date: string,
                        kindOf: string -> PositionType): (r: Portfolio)
    ensures r.startingValue == p.startingValue && r.totalValue == p.totalValue
    ensures t.action.Sell? || BuyPrice(pd, t.ticker, dateIndex).None? ==> r == p
    ensures t.action.Buy? && BuyPrice(pd, t.ticker, dateIndex).Some? ==>
      r.cashBalance == p.cashBalance - t.amount
  {
    var price := BuyPrice(pd, t.ticker, dateIndex);
    if t.action.Sell? || price.None? then p
    else
      var open := price.value;
      var units := t.amount / open;
      var k := FindPosition(p.positions, t.ticker);
      var positions :=
        if k.Some? then
          var held := p.positions[k.value];
          p.positions[k.value := held.(quantity := held.quantity + units)]
        else
          p.positions + [Position(t.ticker, t.ticker, t.ticker, kindOf(t.ticker), units, open, date, open, units * open)];
      p.(positions := positions, cashBalance := p.cashBalance - t.amount)
  }

  /** All pending trades, in queue order. */
  function ExecuteTrades(p: Portfolio, ts: seq<PendingTrade>, pd: PriceData, dateIndex: int, date: string,
                         kindOf: string -> PositionType): (r: Portfolio)
    ensures r.startingValue == p.startingValue
    decreases ts
  {
    if ts == [] then p
    else ExecuteTrades(ExecuteTrade(p, ts[0], pd, dateIndex, date, kindOf), ts[1..], pd, dateIndex, date, kindOf)
  }

  /** The amount a trade actually spends this tick: a buy's amount when it
      executes, otherwise nothing. */
  function Spent(t: PendingTrade, pd: PriceData, dateIndex: int): real
  {
    if t.action.Buy? && BuyPrice(pd, t.ticker, dateIndex).Some? then t.amount else 0.0
  }

  function TotalSpent(ts: seq<PendingTrade>, pd: PriceData, dateIndex: int): real
  {
    if ts == [] then 0.0 else Spent(ts[0], pd, dateIndex) + TotalSpent(ts[1..], pd, dateIndex)
  }

  /** Cash falls by exactly the amounts of the buys that executed. */
  lemma {:induction false} TradesSpendCash(p: Portfolio, ts: seq<PendingTrade>, pd: PriceData, dateIndex: int,
                                           date: string, kindOf: string -> PositionType)
    ensures ExecuteTrades(p, ts, pd, dateIndex, date, kindOf).cashBalance
         == p.cashBalance - TotalSpent(ts, pd, dateIndex)
    decreases ts
  {
    if ts != [] {
      TradesSpendCash(ExecuteTrade(p, ts[0], pd, dateIndex, date, kindOf), ts[1..], pd, dateIndex, date, kindOf);
    }
  }

  /** The number of units of `ticker` held: the quantity of its position, or 0. */
  function Held(ps: seq<Position>, ticker: string): real
  {
    var k := FindPosition(ps, ticker);
    if k.Some? then ps[k.value].quantity else 0.0
  }

  /** At most one position per ticker. */
  predicate OnePositionPerTicker(ps: seq<Position>)
  {
    forall i, j :: 0 <= i < j < |ps| ==> ps[i].ticker != ps[j].ticker
  }

  /** An executed buy adds `amount / open` units of its ticker and leaves
      every other ticker's holding alone; it opens a position only for a
      ticker not yet held, so there stays one position per ticker. A held
      ticker's position changes only in quantity; a new one is appended,
      named after its ticker, entered and priced at the open, and worth
      exactly the amount spent. */
  lemma BuyAddsUnits(p: Portfolio, t: PendingTrade, pd: PriceData, dateIndex: int, date: string,
                     kindOf: string -> PositionType, other: string)
    requires t.action.Buy? && BuyPrice(pd, t.ticker, dateIndex).Some?
    requires OnePositionPerTicker(p.positions)
    ensures var r := ExecuteTrade(p, t, pd, dateIndex, date, kindOf);
      Held(r.positions, t.ticker) == Held(p.positions, t.ticker) + t.amount / BuyPrice(pd, t.ticker, dateIndex).value
      && (other != t.ticker ==> Held(r.positions, other) == Held(p.positions, other))
      && OnePositionPerTicker(r.positions)
      && |r.positions| == |p.positions| + (if FindPosition(p.positions, t.ticker).Some? then 0 else 1)
    ensures var r := ExecuteTrade(p, t, pd, dateIndex, date, kindOf);
      var open := BuyPrice(pd, t.ticker, dateIndex).value;
      var k := FindPosition(p.positions, t.ticker);
      (k.Some? ==> r.positions == p.positions[k.value := p.positions[k.value].(quantity := p.positions[k.value].quantity + t.amount / open)])
      && (k.None? ==> r.positions == p.positions + [Position(t.ticker, t.ticker, t.ticker, kindOf(t.ticker), t.amount / open, open, date, open, t.amount)])
  {
    var r := ExecuteTrade(p, t, pd, dateIndex, date, kindOf);
    var open := BuyPrice(pd, t.ticker, dateIndex).value;
    assert (t.amount / open) * open == t.amount;
    FindAfterBuy(p.positions, r.positions, t.ticker, other);
  }

  /** How the position search sees the positions after a buy. */
  lemma FindAfterBuy(ps: seq<Position>, rs: seq<Position>, ticker: string, other: string)
    requires OnePositionPerTicker(ps)
    requires FindPosition(ps, ticker).Some? ==> |rs| == |ps|
    requires FindPosition(ps, ticker).None? ==> |rs| == |ps| + 1 && rs[|ps|].ticker == ticker
    requires forall j :: 0 <= j < |ps| ==> rs[j].ticker == ps[j].ticker
    requires forall j :: 0 <= j < |ps| && ps[j].ticker != ticker ==> rs[j] == ps[j]
    ensures OnePositionPerTicker(rs)
    ensures other != ticker ==> Held(rs, other) == Held(ps, other)
    ensures FindPosition(ps, ticker).Some? ==> FindPosition(rs, ticker) == FindPosition(ps, ticker)
    ensures FindPosition(ps, ticker).None? ==> FindPosition(rs, ticker) == Some(|ps|)
  {
    FindSameTickers(ps, rs, other);
    FindSameTickers(ps, rs, ticker);
  }

  /** The search finds the same index in two sequences whose prefixes carry
      the same tickers (an extra last entry matters only when nothing earlier matched). */
  lemma {:induction false} FindSameTickers(ps: seq<Position>, rs: seq<Position>, ticker: string)
    requires |ps| <= |rs|
    requires forall j :: 0 <= j < |ps| ==> rs[j].ticker == ps[j].ticker
    ensures FindPosition(ps, ticker).Some? ==> FindPosition(rs, ticker) == FindPosition(ps, ticker)
    ensures FindPosition(ps, ticker).None? && |rs| == |ps| + 1 && rs[|ps|].ticker == ticker
      ==> FindPosition(rs, ticker) == Some(|ps|)
    ensures FindPosition(ps, ticker).None? && |rs| == |ps| ==> FindPosition(rs, ticker).None?
    ensures FindPosition(ps, ticker).None? && |rs| == |ps| + 1 && rs[|ps|].ticker != ticker
      ==> FindPosition(rs, ticker).None?
  {
    if ps != [] && ps[0].ticker != ticker {
      FindSameTickers(ps[1..], rs[1..], ticker);
    } else if ps == [] && rs != [] && rs[0].ticker != ticker {
      FindSameTickers(ps, rs[1..], ticker);
    }
  }

  // ---------------------------------------------------------------------------
  // Valuation
  // ---------------------------------------------------------------------------

  /** Reprice one position at its ticker's close this tick, keeping the
      previous price when there is no close. */
  function RevaluePosition(pos: Position, pd: PriceData, dateIndex: int): (r: Position)
    ensures r == pos.(currentPrice := r.currentPrice, currentValue := r.currentValue)
    ensures r.currentValue == r.quantity * r.currentPrice
    ensures PointAt(pd, pos.ticker, dateIndex).Some? ==> r.currentPrice == PointAt(pd, pos.ticker, dateIndex).value.close
    ensures PointAt(pd, pos.ticker, dateIndex).None? ==> r.currentPrice == pos.currentPrice
  {
    var pt := PointAt(pd, pos.ticker, dateIndex);
    var price := if pt.Some? then pt.value.close else pos.currentPrice;
    pos.(currentPrice := price, currentValue := pos.quantity * price)
  }

  function RevaluePositions(ps: seq<Position>, pd: PriceData, dateIndex: int): (rs: seq<Position>)
    ensures |rs| == |ps|
    ensures forall k :: 0 <= k < |ps| ==> rs[k] == RevaluePosition(ps[k], pd, dateIndex)
  {
    if ps == [] then [] else [RevaluePosition(ps[0], pd, dateIndex)] + RevaluePositions(ps[1..], pd, dateIndex)
  }

  /** Every position repriced, and the total recomputed from cash and values. */
  function Revalue(p: Portfolio, pd: PriceData, dateIndex: int): (r: Portfolio)
    ensures Consistent(r)
    ensures r.cashBalance == p.cashBalance && r.startingValue == p.startingValue
    ensures |r.positions| == |p.positions|
    ensures forall k :: 0 <= k < |p.positions| ==> r.positions[k] == RevaluePosition(p.positions[k], pd, dateIndex)
  {
    var ps := RevaluePositions(p.positions, pd, dateIndex);
    p.(positions := ps, totalValue := p.cashBalance + SumValues(ps))
  }

  // ---------------------------------------------------------------------------
  // The tick
  // ---------------------------------------------------------------------------

  /** `(totalValue - startingValue) / startingValue`, and 0 for a zero start. */
  function CumulativeReturn(p: Portfolio): (r: real)
    ensures p.startingValue > 0.0 ==> (r > 0.0 <==> p.totalValue > p.startingValue)
    ensures p.startingValue > 0.0 ==> (r == 0.0 <==> p.totalValue == p.startingValue)
    ensures p.startingValue != 0.0 ==> r * p.startingValue == p.totalValue - p.startingValue
  {
    if p.startingValue == 0.0 then 0.0 else (p.totalValue - p.startingValue) / p.startingValue
  }

  /** The portfolio at the end of the tick at `dateIndex`: trades, then
      valuation, then (when enabled) dividend reinvestment. */
  function TickPortfolio(s: SimulationState, pd: PriceData, dateIndex: int, date: string,
                         kindOf: string -> PositionType): (r: Portfolio)
    ensures var traded := ExecuteTrades(s.portfolio, s.pendingTrades, pd, dateIndex, date, kindOf);
      Consistent(r)
      && r.startingValue == s.portfolio.startingValue
      && r.cashBalance == traded.cashBalance
      && |r.positions| == |traded.positions|
      && forall k :: 0 <= k < |r.positions| ==> r.positions[k].ticker == traded.positions[k].ticker
  {
    var traded := ExecuteTrades(s.portfolio, s.pendingTrades, pd, dateIndex, date, kindOf);
    var valued := Revalue(traded, pd, dateIndex);
    DripKeepsConsistent(valued, pd, dateIndex);
    if s.config.drip then ApplyDripDividends(valued, pd, dateIndex) else valued
  }

  /** One tick. With no price point at the cursor on the reference series
      the state only becomes terminal; otherwise the tick is processed, one
      snapshot appended, pending trades cleared and the cursor advanced,
      completing once it reaches the end of the series. */
  function AdvanceTick(s: SimulationState, pd: PriceData, anchor: string,
                       kindOf: string -> PositionType): (r: SimulationState)
    ensures var series := ReferenceSeries(pd, anchor);
      s.currentDateIndex >= |series| ==> r == s.(isComplete := true)
    ensures var series := ReferenceSeries(pd, anchor);
      s.currentDateIndex < |series| ==>
        r.currentDateIndex == s.currentDateIndex + 1
        && r.isComplete == (r.currentDateIndex == |series|)
        && r.pendingTrades == []
        && r.config == s.config
        && |r.history| == |s.history| + 1
        && r.history[..|s.history|] == s.history
        && r.history[|s.history|].date == series[s.currentDateIndex].date
        && r.history[|s.history|].totalValue == r.portfolio.totalValue
        && r.history[|s.history|].cashBalance == r.portfolio.cashBalance
        && r.history[|s.history|].cumulativeReturn == CumulativeReturn(r.portfolio)
        && r.portfolio.startingValue == s.portfolio.startingValue
        && Consistent(r.portfolio)
  {
    var series := ReferenceSeries(pd, anchor);
    var i := s.currentDateIndex;
    if i >= |series| then s.(isComplete := true)
    else
      var date := series[i].date;
      var p := TickPortfolio(s, pd, i, date, kindOf);
      var snap := Snapshot(date, p.totalValue, p.cashBalance, CumulativeReturn(p));
      s.(portfolio := p,
         history := s.history + [snap],
         pendingTrades := [],
         currentDateIndex := i + 1,
         isComplete := i + 1 >= |series|)
  }

  // ---------------------------------------------------------------------------
  // Properties of a tick
  // ---------------------------------------------------------------------------

  /** Executing the queue keeps one position per ticker. */
  lemma {:induction false} TradesKeepOnePositionPerTicker(p: Portfolio, ts: seq<PendingTrade>, pd: PriceData,
                                                          dateIndex: int, date: string, kindOf: string -> PositionType)
    requires OnePositionPerTicker(p.positions)
    ensures OnePositionPerTicker(ExecuteTrades(p, ts, pd, dateIndex, date, kindOf).positions)
    decreases ts
  {
    if ts != [] {
      var t := ts[0];
      if t.action.Buy? && BuyPrice(pd, t.ticker, dateIndex).Some? {
        BuyAddsUnits(p, t, pd, dateIndex, date, kindOf, t.ticker);
      }
      TradesKeepOnePositionPerTicker(ExecuteTrade(p, t, pd, dateIndex, date, kindOf), ts[1..], pd, dateIndex, date, kindOf);
    }
  }

  /** A processed tick keeps one position per ticker: valuation and
      dividend reinvestment never change a position's ticker. */
  lemma TickKeepsOnePositionPerTicker(s: SimulationState, pd: PriceData, anchor: string, kindOf: string -> PositionType)
    requires OnePositionPerTicker(s.portfolio.positions)
    ensures OnePositionPerTicker(AdvanceTick(s, pd, anchor, kindOf).portfolio.positions)
  {
    var series := ReferenceSeries(pd, anchor);
    var i := s.currentDateIndex;
    if i < |series| {
      var date := series[i].date;
      TradesKeepOnePositionPerTicker(s.portfolio, s.pendingTrades, pd, i, date, kindOf);
      var traded := ExecuteTrades(s.portfolio, s.pendingTrades, pd, i, date, kindOf);
      SameTickersKeepOnePerTicker(TickPortfolio(s, pd, i, date, kindOf).positions, traded.positions);
    }
  }

  lemma SameTickersKeepOnePerTicker(a: seq<Position>, b: seq<Position>)
    requires |a| == |b| && forall k :: 0 <= k < |a| ==> a[k].ticker == b[k].ticker
    requires OnePositionPerTicker(b)
    ensures OnePositionPerTicker(a)
  {
  }

  /** After a processed tick every position is priced at its close (or
      keeps its price when its ticker has no close) and, without dividend
      reinvestment, holds exactly the units the trades left it. With
      reinvestment, each position is the reinvested form of its revalued self. */
  lemma TickRevaluesPositions(s: SimulationState, pd: PriceData, anchor: string, kindOf: string -> PositionType)
    requires s.currentDateIndex < |ReferenceSeries(pd, anchor)|
    ensures var i := s.currentDateIndex;
      var date := ReferenceSeries(pd, anchor)[i].date;
      var traded := ExecuteTrades(s.portfolio, s.pendingTrades, pd, i, date, kindOf);
      var r := AdvanceTick(s, pd, anchor, kindOf).portfolio;
      |r.positions| == |traded.positions|
      && r.cashBalance == traded.cashBalance
      && forall k :: 0 <= k < |r.positions| ==>
           var v := RevaluePosition(traded.positions[k], pd, i);
           (!s.config.drip ==> r.positions[k] == v && v.quantity == traded.positions[k].quantity)
           && (s.config.drip ==> r.positions[k] == DripPosition(v, pd, i))
  {
  }

  /** `n` successive ticks. */
  function Run(s: SimulationState, pd: PriceData, anchor: string, kindOf: string -> PositionType, n: nat): SimulationState
    decreases n
  {
    if n == 0 then s else Run(AdvanceTick(s, pd, anchor, kindOf), pd, anchor, kindOf, n - 1)
  }

  /** `n` ticks within the series move the cursor `n` places, append `n`
      snapshots, and complete exactly when the cursor reaches its end. */
  lemma {:induction false} RunCursor(s: SimulationState, pd: PriceData, anchor: string,
                                     kindOf: string -> PositionType, n: nat)
    requires s.currentDateIndex + n <= |ReferenceSeries(pd, anchor)|
    ensures var r := Run(s, pd, anchor, kindOf, n);
      r.currentDateIndex == s.currentDateIndex + n
      && |r.history| == |s.history| + n
      && (n > 0 ==> r.isComplete == (r.currentDateIndex == |ReferenceSeries(pd, anchor)|))
    decreases n
  {
    if n > 0 {
      RunCursor(AdvanceTick(s, pd, anchor, kindOf), pd, anchor, kindOf, n - 1);
    }
  }

  /** The snapshots `n` ticks append leave the earlier history alone and are
      dated by the series, in order, from the cursor on. */
  lemma {:induction false} RunProgress(s: SimulationState, pd: PriceData, anchor: string,
                                       kindOf: string -> PositionType, n: nat)
    requires s.currentDateIndex + n <= |ReferenceSeries(pd, anchor)|
    ensures var r := Run(s, pd, anchor, kindOf, n);
      |r.history| == |s.history| + n
      && r.history[..|s.history|] == s.history
      && (forall k :: |s.history| <= k < |r.history| ==>
            r.history[k].date == ReferenceSeries(pd, anchor)[s.currentDateIndex + (k - |s.history|)].date)
    decreases n
  {
    RunCursor(s, pd, anchor, kindOf, n);
    if n > 0 {
      var next := AdvanceTick(s, pd, anchor, kindOf);
      RunProgress(next, pd, anchor, kindOf, n - 1);
      var r := Run(s, pd, anchor, kindOf, n);
      assert r == Run(next, pd, anchor, kindOf, n - 1);
      forall k | |s.history| <= k < |r.history|
        ensures r.history[k].date == ReferenceSeries(pd, anchor)[s.currentDateIndex + (k - |s.history|)].date
      {
        if k == |s.history| {
          assert r.history[..|next.history|][k] == next.history[k];
        }
      }
      assert r.history[..|s.history|] == r.history[..|next.history|][..|s.history|];
    }
  }

  /** A run started at the first day of an `N`-day series is complete after
      exactly `N` ticks, never before, with one snapshot per day, the last
      dated by the series' last day; further ticks change nothing. */
  lemma FullRun(config: SimulationConfig, portfolio: Portfolio, pending: seq<PendingTrade>,
                pd: PriceData, anchor: string, kindOf: string -> PositionType)
    requires |ReferenceSeries(pd, anchor)| > 0
    ensures var n := |ReferenceSeries(pd, anchor)|;
      var s0 := InitialState(config, portfolio, pending);
      var done := Run(s0, pd, anchor, kindOf, n);
      done.isComplete
      && |done.history| == n
      && done.history[n - 1].date == ReferenceSeries(pd, anchor)[n - 1].date
      && AdvanceTick(done, pd, anchor, kindOf) == done
      && (forall k :: 0 <= k < n ==> !Run(s0, pd, anchor, kindOf, k).isComplete)
  {
    var n := |ReferenceSeries(pd, anchor)|;
    var s0 := InitialState(config, portfolio, pending);
    RunCursor(s0, pd, anchor, kindOf, n);
    RunProgress(s0, pd, anchor, kindOf, n);
    var done := Run(s0, pd, anchor, kindOf, n);
    assert done.history[n - 1].date == ReferenceSeries(pd, anchor)[0 + (n - 1 - 0)].date;
    forall k | 0 <= k < n
      ensures !Run(s0, pd, anchor, kindOf, k).isComplete
    {
      RunCursor(s0, pd, anchor, kindOf, k);
    }
  }

  /** The snapshot's return is zero for an untouched all-cash portfolio. */
  lemma AllCashTickHasZeroReturn(s: SimulationState, pd: PriceData, anchor: string, kindOf: string -> PositionType)
    requires s.currentDateIndex < |ReferenceSeries(pd, anchor)|
    requires s.portfolio == CreatePortfolio(s.portfolio.startingValue) && s.portfolio.startingValue > 0.0
    requires s.pendingTrades == []
    ensures var r := AdvanceTick(s, pd, anchor, kindOf);
      r.history[|s.history|].cumulativeReturn == 0.0 && r.portfolio == s.portfolio
  {
    var i := s.currentDateIndex;
    var valued := Revalue(s.portfolio, pd, i);
    assert valued == s.portfolio;
    assert !AnyEligible(valued.positions);
  }

  /** With reinvestment on and nothing pending, a tick adds `q * 0.018 / 252`
      units to a SPY holding, leaves a BTC holding's units alone, and leaves
      cash as it was. */
  lemma DripTickOnSpyAndBtc(s: SimulationState, pd: PriceData, anchor: string,
                            kindOf: string -> PositionType, k: int)
    requires s.currentDateIndex < |ReferenceSeries(pd, anchor)|
    requires s.config.drip && s.pendingTrades == []
    requires 0 <= k < |s.portfolio.positions| && s.portfolio.positions[k].kind != OptionContract
    ensures var q := s.portfolio.positions[k].quantity;
      var r := AdvanceTick(s, pd, anchor, kindOf).portfolio;
      r.cashBalance == s.portfolio.cashBalance
      && (s.portfolio.positions[k].ticker == "SPY" ==> r.positions[k].quantity == q + q * (0.018 / 252.0))
      && (s.portfolio.positions[k].ticker == "BTC" ==> r.positions[k].quantity == q)
  {
    var i := s.currentDateIndex;
    var date := ReferenceSeries(pd, anchor)[i].date;
    assert ExecuteTrades(s.portfolio, [], pd, i, date, kindOf) == s.portfolio;
    TickRevaluesPositions(s, pd, anchor, kindOf);
    var p := s.portfolio.positions[k];
    var v := RevaluePosition(p, pd, i);
    var r := AdvanceTick(s, pd, anchor, kindOf).portfolio;
    assert r.positions[k] == DripPosition(v, pd, i);
    assert v.quantity == p.quantity && v.ticker == p.ticker && v.kind == p.kind;
    if p.ticker == "SPY" {
      SpyAndTltYields();
      assert Eligible(v) && DailyYield(v.ticker) == 0.018 / 252.0;
    } else if p.ticker == "BTC" {
      BtcYieldsNothing();
      assert !Eligible(v);
    }
  }
}
