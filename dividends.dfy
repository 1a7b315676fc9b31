/** Dividend reinvestment (DRIP): one trading day of dividends is turned
    into extra fractional shares of every yield-bearing position. */
module Dividends {
  import opened Wrappers
  import opened Types

  const TRADING_DAYS_PER_YEAR: real := 252.0

  /** Trailing annual dividend yields per ticker, in the source's table
      order; crypto, leveraged products and non-paying names are 0. */
  const ANNUAL_DIVIDEND_YIELDS: seq<(string, real)> := [
    ("SPY", 0.018), ("QQQ", 0.005), ("VTI", 0.017), ("IWM", 0.014),
    ("GLD", 0.0), ("TLT", 0.040), ("TQQQ", 0.0), ("SQQQ", 0.0),
    ("AAPL", 0.005), ("MSFT", 0.007), ("AMZN", 0.0), ("TSLA", 0.0),
    ("NVDA", 0.001), ("META", 0.004), ("GME", 0.0), ("NFLX", 0.0),
    ("JPM", 0.025), ("GS", 0.024), ("IBM", 0.045),
    ("BTC", 0.0), ("ETH", 0.0), ("DOGE", 0.0), ("SOL", 0.0)
  ]

  /** Record lookup: the yield of the first entry for `ticker`, or 0 when
      there is none (the source's falsy `undefined`). */
  function YieldIn(table: seq<(string, real)>, ticker: string): real
  {
    if table == [] then 0.0
    else if table[0].0 == ticker then table[0].1
    else YieldIn(table[1..], ticker)
  }

  lemma {:induction false} YieldInBounds(table: seq<(string, real)>, ticker: string, lo: real, hi: real)
    requires lo <= 0.0 <= hi
    requires forall i :: 0 <= i < |table| ==> lo <= table[i].1 <= hi
    ensures lo <= YieldIn(table, ticker) <= hi
  {
    if table != [] && table[0].0 != ticker {
      YieldInBounds(table[1..], ticker, lo, hi);
    }
  }

  /** The yield the engine reads for `ticker`: never negative, at most 4.5%. */
  function AnnualYield(ticker: string): (y: real)
    ensures 0.0 <= y <= 0.045
  {
    YieldInBounds(ANNUAL_DIVIDEND_YIELDS, ticker, 0.0, 0.045);
    YieldIn(ANNUAL_DIVIDEND_YIELDS, ticker)
  }

  /** The fraction of a share added per share and per trading day. */
  function DailyYield(ticker: string): real
  {
    AnnualYield(ticker) / TRADING_DAYS_PER_YEAR
  }

  /** A position DRIP touches: not an option, and its ticker has a non-zero yield. */
  predicate Eligible(p: Position)
  {
    p.kind != OptionContract && AnnualYield(p.ticker) != 0.0
  }

  /** Whether any position is eligible (the source's `anyChanged` flag). */
  predicate AnyEligible(ps: seq<Position>)
  {
    exists k :: 0 <= k < |ps| && Eligible(ps[k])
  }

  /** The price the new quantity is valued at: the already repriced
      `currentPrice` when positive, else the day's close, else 0. */
  function DripPrice(p: Position, pd: PriceData, dateIndex: int): real
  {
    if p.currentPrice > 0.0 then p.currentPrice
    else match PointAt(pd, p.ticker, dateIndex)
      case Some(pt) => pt.close
      case None => 0.0
  }

  /** One position after one day of dividends: an eligible one gains
      `q * y/252` shares valued at its DRIP price and keeps every other
      field; any other position passes through unchanged. */
  function DripPosition(p: Position, pd: PriceData, dateIndex: int): (r: Position)
    ensures !Eligible(p) ==> r == p
    ensures Eligible(p) ==>
      && r.quantity == p.quantity + p.quantity * DailyYield(p.ticker)
      && r.currentValue == r.quantity * DripPrice(p, pd, dateIndex)
      && r == p.(quantity := r.quantity, currentValue := r.currentValue)
  {
    if !Eligible(p) then p
    else
      var newQuantity := p.quantity + p.quantity * DailyYield(p.ticker);
      p.(quantity := newQuantity, currentValue := newQuantity * DripPrice(p, pd, dateIndex))
  }

  /** Every position after one day of dividends, in order (the source's `map`). */
  function DripPositions(ps: seq<Position>, pd: PriceData, dateIndex: int): (rs: seq<Position>)
    ensures |rs| == |ps|
    ensures forall k :: 0 <= k < |ps| ==> rs[k] == DripPosition(ps[k], pd, dateIndex)
  {
    if ps == [] then [] else [DripPosition(ps[0], pd, dateIndex)] + DripPositions(ps[1..], pd, dateIndex)
  }

  /** applyDripDividends: grows every eligible position by one day of its
      yield; returns the portfolio itself when nothing is eligible. */
  function ApplyDripDividends(portfolio: Portfolio, pd: PriceData, dateIndex: int): (r: Portfolio)
    ensures !AnyEligible(portfolio.positions) ==> r == portfolio
    ensures AnyEligible(portfolio.positions) ==>
      && r.cashBalance == portfolio.cashBalance
      && r.startingValue == portfolio.startingValue
      && r.totalValue == r.cashBalance + SumValues(r.positions)
    ensures |r.positions| == |portfolio.positions|
    ensures forall k :: 0 <= k < |portfolio.positions| ==>
      r.positions[k] == DripPosition(portfolio.positions[k], pd, dateIndex)
  {
    if !AnyEligible(portfolio.positions) then
      assert forall k :: 0 <= k < |portfolio.positions| ==> !Eligible(portfolio.positions[k]);
      portfolio
    else
      var positions := DripPositions(portfolio.positions, pd, dateIndex);
      portfolio.(positions := positions, totalValue := portfolio.cashBalance + SumValues(positions))
  }

  /** The portfolio invariant survives a day of dividends. */
  lemma DripKeepsConsistent(portfolio: Portfolio, pd: PriceData, dateIndex: int)
    requires Consistent(portfolio)
    ensures Consistent(ApplyDripDividends(portfolio, pd, dateIndex))
  {
  }

  /** `n` consecutive applications against the same price data and index,
      as the compounding test drives it. */
  function DripTimes(portfolio: Portfolio, pd: PriceData, dateIndex: int, n: nat): Portfolio
    decreases n
  {
    if n == 0 then portfolio else DripTimes(ApplyDripDividends(portfolio, pd, dateIndex), pd, dateIndex, n - 1)
  }

  function Pow(x: real, n: nat): real
  {
    if n == 0 then 1.0 else x * Pow(x, n - 1)
  }

  /** One position taken through `n` days of dividends on its own. */
  function DripPositionTimes(p: Position, pd: PriceData, dateIndex: int, n: nat): Position
    decreases n
  {
    if n == 0 then p else DripPositionTimes(DripPosition(p, pd, dateIndex), pd, dateIndex, n - 1)
  }

  /** Positions are independent: `n` portfolio-level applications take
      each position through `n` days of its own. */
  lemma {:induction false} DripTimesPointwise(portfolio: Portfolio, pd: PriceData, dateIndex: int, n: nat, k: nat)
    requires k < |portfolio.positions|
    ensures |DripTimes(portfolio, pd, dateIndex, n).positions| == |portfolio.positions|
    ensures DripTimes(portfolio, pd, dateIndex, n).positions[k]
      == DripPositionTimes(portfolio.positions[k], pd, dateIndex, n)
    decreases n
  {
    if n > 0 {
      var next := ApplyDripDividends(portfolio, pd, dateIndex);
      DripTimesPointwise(next, pd, dateIndex, n - 1, k);
      DripPositionTimesShift(portfolio.positions[k], pd, dateIndex, n);
    }
  }

  lemma {:induction false} DripPositionTimesShift(p: Position, pd: PriceData, dateIndex: int, n: nat)
    requires n > 0
    ensures DripPositionTimes(p, pd, dateIndex, n) == DripPositionTimes(DripPosition(p, pd, dateIndex), pd, dateIndex, n - 1)
  {
  }

  /** `q` shares grown `n` times by the daily fraction `d`. */
  function GrowShares(q: real, d: real, n: nat): real
    decreases n
  {
    if n == 0 then q else GrowShares(q + q * d, d, n - 1)
  }

  lemma GrowSharesStep(q: real, q': real, d: real, n: nat)
    requires n > 0 && q' == q + q * d
    ensures GrowShares(q, d, n) == GrowShares(q', d, n - 1)
  {
  }

  /** Repeated growth is compound interest: `q * (1 + d)^n`. */
  lemma {:induction false} GrowSharesClosedForm(q: real, d: real, n: nat)
    ensures GrowShares(q, d, n) == q * Pow(1.0 + d, n)
    decreases n
  {
    if n > 0 {
      GrowSharesClosedForm(q + q * d, d, n - 1);
      GrowthStep(q, q + q * d, 1.0 + d, Pow(1.0 + d, n - 1));
    }
  }

  /** `n` days of DRIP on an eligible position grow its quantity `n` times
      by its daily yield and change nothing but quantity and value. */
  lemma {:induction false} DripPositionIterates(p: Position, pd: PriceData, dateIndex: int, n: nat)
    requires Eligible(p)
    ensures DripPositionTimes(p, pd, dateIndex, n).quantity == GrowShares(p.quantity, DailyYield(p.ticker), n)
    ensures DripPositionTimes(p, pd, dateIndex, n)
      == p.(quantity := DripPositionTimes(p, pd, dateIndex, n).quantity,
            currentValue := DripPositionTimes(p, pd, dateIndex, n).currentValue)
    decreases n
  {
    if n > 0 {
      var mid := DripPosition(p, pd, dateIndex);
      assert mid.ticker == p.ticker && mid.kind == p.kind;
      DripPositionIterates(mid, pd, dateIndex, n - 1);
      GrowSharesStep(p.quantity, mid.quantity, DailyYield(p.ticker), n);
    }
  }

  /** Compounding for one position: `n` days turn `q` shares into
      `q * (1 + y/252)^n`, and nothing but quantity and value changes. */
  lemma DripPositionCompounds(p: Position, pd: PriceData, dateIndex: int, n: nat)
    requires Eligible(p)
    ensures DripPositionTimes(p, pd, dateIndex, n).quantity == p.quantity * Pow(1.0 + DailyYield(p.ticker), n)
    ensures DripPositionTimes(p, pd, dateIndex, n)
      == p.(quantity := DripPositionTimes(p, pd, dateIndex, n).quantity,
            currentValue := DripPositionTimes(p, pd, dateIndex, n).currentValue)
  {
    DripPositionIterates(p, pd, dateIndex, n);
    GrowSharesClosedForm(p.quantity, DailyYield(p.ticker), n);
  }

  /** `q' = q + q*d` and `q' * f == q * (1 + d) * f`, spelled out for the solver. */
  lemma GrowthStep(q: real, q': real, g: real, f: real)
    requires q' == q + q * (g - 1.0)
    ensures q' * f == q * (g * f)
  {
    assert q' == q * g;
  }

  /** A position DRIP does not touch stays exactly as it is, however many
      times the engine runs. */
  lemma {:induction false} DripNeverTouchesIneligible(portfolio: Portfolio, pd: PriceData, dateIndex: int, n: nat, k: nat)
    requires k < |portfolio.positions| && !Eligible(portfolio.positions[k])
    ensures |DripTimes(portfolio, pd, dateIndex, n).positions| == |portfolio.positions|
    ensures DripTimes(portfolio, pd, dateIndex, n).positions[k] == portfolio.positions[k]
    decreases n
  {
    if n > 0 {
      DripNeverTouchesIneligible(ApplyDripDividends(portfolio, pd, dateIndex), pd, dateIndex, n - 1, k);
    }
  }

  /** Bernoulli's inequality for the compounding factor. */
  lemma {:induction false} Bernoulli(x: real, n: nat)
    requires x >= 0.0
    ensures Pow(1.0 + x, n) >= 1.0 + (n as real) * x
  {
    if n > 0 {
      Bernoulli(x, n - 1);
      var m := (n - 1) as real;
      assert Pow(1.0 + x, n) == (1.0 + x) * Pow(1.0 + x, n - 1);
      assert (1.0 + x) * Pow(1.0 + x, n - 1) >= (1.0 + x) * (1.0 + m * x) by {
        var a, b := Pow(1.0 + x, n - 1), 1.0 + m * x;
        assert a - b >= 0.0;
        assert (1.0 + x) * (a - b) >= 0.0;
      }
      assert (1.0 + x) * (1.0 + m * x) == 1.0 + (m + 1.0) * x + m * x * x;
      assert m * x * x >= 0.0;
    }
  }

  /** A year (252 trading days) of DRIP grows an eligible holding by at
      least its annual yield: `q * (1 + y/252)^252 >= q * (1 + y)`. */
  lemma YearOfDripAtLeastAnnualYield(p: Position, pd: PriceData, dateIndex: int)
    requires Eligible(p) && p.quantity >= 0.0
    ensures DripPositionTimes(p, pd, dateIndex, 252).quantity >= p.quantity * (1.0 + AnnualYield(p.ticker))
  {
    DripPositionCompounds(p, pd, dateIndex, 252);
    YearOfCompounding(DailyYield(p.ticker), AnnualYield(p.ticker));
    ScaleMonotone(p.quantity, Pow(1.0 + DailyYield(p.ticker), 252), 1.0 + AnnualYield(p.ticker));
  }

  /** `(1 + y/252)^252 >= 1 + y` for a non-negative rate. */
  lemma YearOfCompounding(d: real, y: real)
    requires y >= 0.0 && d == y / 252.0
    ensures Pow(1.0 + d, 252) >= 1.0 + y
  {
    Bernoulli(d, 252);
    assert 1.0 + 252.0 * d == 1.0 + y;
  }

  /** With a positive holding, `n >= 2` days of DRIP give strictly more
      shares than one day (the test compares 252 days with one). */
  lemma MoreDaysMoreShares(p: Position, pd: PriceData, dateIndex: int, n: nat)
    requires Eligible(p) && p.quantity > 0.0 && n >= 2
    ensures DripPositionTimes(p, pd, dateIndex, n).quantity > DripPosition(p, pd, dateIndex).quantity
  {
    var d := DailyYield(p.ticker);
    assert d > 0.0;
    DripPositionCompounds(p, pd, dateIndex, n);
    CompoundingBeatsOneDay(p.quantity, DripPosition(p, pd, dateIndex).quantity, d, n);
  }

  /** `q * (1 + d)^n > q + q * d` for a positive holding and rate, `n >= 2`. */
  lemma CompoundingBeatsOneDay(q: real, oneDay: real, d: real, n: nat)
    requires q > 0.0 && d > 0.0 && n >= 2 && oneDay == q + q * d
    ensures q * Pow(1.0 + d, n) > oneDay
  {
    Bernoulli(d, n);
    var f := Pow(1.0 + d, n);
    assert (n as real - 2.0) * d >= 0.0;
    assert f > 1.0 + d;
    ScaleStrict(q, f, 1.0 + d);
  }

  lemma ScaleMonotone(q: real, a: real, b: real)
    requires q >= 0.0 && a >= b
    ensures q * a >= q * b
  {
    assert q * a - q * b == q * (a - b);
  }

  lemma ScaleStrict(q: real, a: real, b: real)
    requires q > 0.0 && a > b
    ensures q * a > q * b
  {
    assert q * a - q * b == q * (a - b);
  }

  /** For equal holdings, the higher-yield ticker gains strictly more shares. */
  lemma HigherYieldGainsMore(p1: Position, p2: Position, pd: PriceData, dateIndex: int)
    requires Eligible(p1) && Eligible(p2)
    requires p1.quantity == p2.quantity > 0.0
    requires AnnualYield(p1.ticker) < AnnualYield(p2.ticker)
    ensures DripPosition(p1, pd, dateIndex).quantity < DripPosition(p2, pd, dateIndex).quantity
  {
    var q := p1.quantity;
    assert q * DailyYield(p1.ticker) < q * DailyYield(p2.ticker);
  }

  /** The test's TLT-versus-SPY comparison: equal holdings, and TLT gains more. */
  lemma TltOutgainsSpy(spy: Position, tlt: Position, pd: PriceData, dateIndex: int)
    requires spy.ticker == "SPY" && tlt.ticker == "TLT"
    requires spy.kind != OptionContract && tlt.kind != OptionContract
    requires spy.quantity == tlt.quantity > 0.0
    ensures DripPosition(spy, pd, dateIndex).quantity < DripPosition(tlt, pd, dateIndex).quantity
  {
    SpyAndTltYields();
    HigherYieldGainsMore(spy, tlt, pd, dateIndex);
  }

  /** The lookup returns the first entry for `ticker`. */
  lemma {:induction false} YieldInFirst(table: seq<(string, real)>, ticker: string, i: nat)
    requires i < |table| && table[i].0 == ticker
    requires forall j :: 0 <= j < i ==> table[j].0 != ticker
    ensures YieldIn(table, ticker) == table[i].1
  {
    if i > 0 {
      YieldInFirst(table[1..], ticker, i - 1);
    }
  }

  /** A ticker with no entry reads as yield 0. */
  lemma {:induction false} YieldInAbsent(table: seq<(string, real)>, ticker: string)
    requires forall j :: 0 <= j < |table| ==> table[j].0 != ticker
    ensures YieldIn(table, ticker) == 0.0
  {
    if table != [] {
      YieldInAbsent(table[1..], ticker);
    }
  }

  /** TLT (4.0%) out-yields SPY (1.8%). */
  lemma SpyAndTltYields()
    ensures AnnualYield("SPY") == 0.018 && AnnualYield("TLT") == 0.040
  {
    YieldInFirst(ANNUAL_DIVIDEND_YIELDS, "SPY", 0);
    YieldInFirst(ANNUAL_DIVIDEND_YIELDS, "TLT", 5);
  }

  /** The leveraged TQQQ reads yield 0. */
  lemma TqqqYieldsNothing()
    ensures AnnualYield("TQQQ") == 0.0
  {
    var t := ANNUAL_DIVIDEND_YIELDS;
    assert forall j :: 0 <= j < 6 ==> t[j].0 != "TQQQ";
    YieldInFirst(t, "TQQQ", 6);
  }

  /** The non-paying TSLA reads yield 0. */
  lemma TslaYieldsNothing()
    ensures AnnualYield("TSLA") == 0.0
  {
    var t := ANNUAL_DIVIDEND_YIELDS;
    assert forall j :: 0 <= j < 11 ==> t[j].0 != "TSLA";
    YieldInFirst(t, "TSLA", 11);
  }

  /** Crypto (BTC) reads yield 0. */
  lemma BtcYieldsNothing()
    ensures AnnualYield("BTC") == 0.0
  {
    var t := ANNUAL_DIVIDEND_YIELDS;
    assert forall j :: 0 <= j < 19 ==> t[j].0 != "BTC";
    YieldInFirst(t, "BTC", 19);
  }
}
