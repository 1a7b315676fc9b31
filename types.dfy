/** The engine's data model: instruments, price series, positions,
    portfolios and scenarios. */
module Types {
  import opened Wrappers

  /** One trading day of one instrument. */
  datatype PricePoint = PricePoint(
    date: string,
    open: real,
    high: real,
    low: real,
    close: real,
    volume: nat)

  /** Ticker to its price series, ascending by date; index i is the i-th
      trading day since the scenario start. */
  type PriceData = map<string, seq<PricePoint>>

  /** The price point of `ticker` at tick `index`, if the series has one. */
  function PointAt(pd: PriceData, ticker: string, index: int): (r: Option<PricePoint>)
    ensures r.Some? <==> ticker in pd && 0 <= index < |pd[ticker]|
    ensures r.Some? ==> r.value == pd[ticker][index]
  {
    if ticker in pd && 0 <= index < |pd[ticker]| then Some(pd[ticker][index]) else None
  }

  datatype PositionType = Stock | Etf | Crypto | Leveraged | OptionContract

  datatype Position = Position(
    id: string,
    ticker: string,
    name: string,
    kind: PositionType,
    quantity: real,
    entryPrice: real,
    entryDate: string,
    currentPrice: real,
    currentValue: real)

  datatype Portfolio = Portfolio(
    positions: seq<Position>,
    cashBalance: real,
    totalValue: real,
    startingValue: real)

  /** The sum of the positions' current values (the engine's `reduce`). */
  function SumValues(ps: seq<Position>): real
  {
    if ps == [] then 0.0 else ps[0].currentValue + SumValues(ps[1..])
  }

  /** The portfolio invariant: total value is cash plus every position's value. */
  predicate Consistent(p: Portfolio)
  {
    p.totalValue == p.cashBalance + SumValues(p.positions)
  }

  datatype ScenarioEvent = ScenarioEvent(date: string, eventLabel: string)

  /** A named historical date range, immutable reference data. */
  datatype Scenario = Scenario(
    slug: string,
    name: string,
    startDate: string,
    endDate: string,
    description: string,
    snarkDescription: string,
    color: string,
    difficulty: string,
    riskFreeRate: real,
    events: seq<ScenarioEvent>)
}
