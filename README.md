# Market-replay simulator core, in Dafny

This project models the deterministic core of a historical market-replay
trading simulator and proves properties of it. A player replays a past market
scenario day by day with a portfolio of positions. The model covers four parts:

- **Dividend reinvestment (DRIP).** Each trading day, every position whose
  ticker has a non-zero annual yield in a fixed table grows by
  `quantity * yield / 252` shares. Options and zero-yield tickers are left
  alone. The portfolio's total is then recomputed.
- **The daily challenge.** A date string `YYYY-MM-DD` becomes a numeric seed,
  goes through one step of a 32-bit linear congruential generator, and is
  scaled to an index into the scenario catalog. The module also covers the
  list of upcoming challenges, calendar-correct `addDays`, and the rule
  deciding when a daily lock blocks another scenario.
- **The tick transition `advanceTick`.** One tick resolves the day on a
  reference price series, buys pending orders at the open, revalues at the
  close, optionally reinvests dividends, appends one snapshot, clears the
  queue and moves the date cursor. A run completes when the cursor reaches
  the end of the series.
- **Milestone popups.** After every tick the cumulative return is compared
  with the thresholds +10%, +25%, +50%, -20% and -50%. Each threshold fires
  at most once until the run is reset. The popup store keeps the five most
  recent events and lets the user dismiss an event by id.

Modules, one per file:

- `Wrappers`: `Option` and `Result`.
- `Types`: positions, portfolios and price data.
- `Dividends`: DRIP.
- `Calendar`: proleptic Gregorian civil dates, with day numbers as defined by
  ECMA-262 section 21.4.1.
- `IsoDate`: the `YYYY-MM-DD` text form.
- `DailyChallenge`: the seed, the generator, the scenario pick, upcoming
  challenges, `addDays` and the lock.
- `Simulator`: the tick.
- `MilestoneStore`: a `Store` class whose `events` field the store's actions
  reassign.
- `Milestones`: a `Tracker` class whose `fired` field is the set the playback
  hook mutates, plus the speed table.

Both milestone pieces are imperative in the source, so they are classes with
methods. The playback hook's threshold loop is a `for` loop proved against
`FiringsAfter`/`FiredAfter`. `getUpcomingChallenges` is a `while` loop proved
against `UpcomingFrom`. Everything else is pure and is written as functions
and lemmas.

The generator is a linear congruential one. `DailyChallenge.ConsecutiveSeedsStep`
shows that consecutive seeds move its state by a fixed step.

The implementation of `advanceTick` lives in `src/engine/simulator.ts` and
`src/engine/portfolio.ts`, which are not part of this model. `advanceTick` is
therefore modelled from the contract its test file pins down, and the rows
below cite that file.

## Model

| member | source | states |
|---|---|---|
| Types.PointAt | src/engine/dividends.ts:77 | a price point exists exactly when the ticker is in the price map and the index lies inside its series, and it is that element |
| Dividends.AnnualYield | src/engine/dividends.ts:12-39 | every ticker's yield lies between 0 and 4.5% (the table's range); unknown tickers read 0 |
| Dividends.YieldInBounds | src/engine/dividends.ts:67 | a table lookup (first match, or 0 when absent) stays within any bounds all entries and 0 lie in |
| Dividends.YieldInFirst | src/engine/dividends.ts:67 | the lookup returns the yield of the ticker's entry |
| Dividends.YieldInAbsent | src/engine/dividends.ts:67-68 | a ticker with no entry reads yield 0 and is therefore skipped |
| Dividends.SpyAndTltYields | src/engine/dividends.ts:14-19 | SPY yields 1.8% and TLT yields 4.0% |
| Dividends.TqqqYieldsNothing | src/engine/__tests__/dividends.test.ts:65-70 | the leveraged TQQQ has yield 0, so DRIP leaves it alone |
| Dividends.TslaYieldsNothing | src/engine/__tests__/dividends.test.ts:58-63 | TSLA has yield 0, so DRIP leaves it alone |
| Dividends.BtcYieldsNothing | src/engine/__tests__/dividends.test.ts:51-56 | BTC (crypto) has yield 0, so DRIP leaves it alone |
| Dividends.DripPosition | src/engine/dividends.ts:63-87 | an option or zero-yield position is returned unchanged; an eligible one gets quantity `q + q*y/252` and value `newQuantity * price`, where price is the current price if positive, else the close at the index, else 0; every other field is kept |
| Dividends.DripPositions | src/engine/dividends.ts:63-87 | positions keep their count and order, and each one is transformed independently |
| Dividends.ApplyDripDividends | src/engine/dividends.ts:56-97 | with no eligible position (including an empty portfolio) the input portfolio is returned; otherwise cash and starting value are kept, each position is its DRIP form, and total = cash + sum of position values |
| Dividends.DripKeepsConsistent | src/engine/dividends.ts:91-96 | the invariant total = cash + sum of position values survives a day of DRIP |
| Dividends.DripTimesPointwise | src/engine/__tests__/dividends.test.ts:208-223 | applying DRIP to the portfolio `n` times takes each position through `n` days of its own |
| Dividends.DripNeverTouchesIneligible | src/engine/__tests__/dividends.test.ts:166-188 | an option or zero-yield position is unchanged after any number of applications, alongside growing ones |
| Dividends.GrowSharesClosedForm | src/engine/__tests__/dividends.test.ts:208-223 | growing `q` by the fraction `d` `n` times gives `q * (1 + d)^n` |
| Dividends.DripPositionIterates | src/engine/__tests__/dividends.test.ts:208-223 | `n` days of DRIP grow an eligible quantity `n` times by its daily yield and change only quantity and value |
| Dividends.DripPositionCompounds | src/engine/__tests__/dividends.test.ts:208-223 | `n` applications multiply an eligible quantity by `(1 + y/252)^n` |
| Dividends.YearOfDripAtLeastAnnualYield | src/engine/__tests__/dividends.test.ts:208-223 | 252 applications grow a non-negative holding by at least its annual yield |
| Dividends.MoreDaysMoreShares | src/engine/__tests__/dividends.test.ts:225-237 | with a positive holding, two or more applications give strictly more shares than one |
| Dividends.HigherYieldGainsMore | src/engine/__tests__/dividends.test.ts:140-151 | for equal positive holdings, the higher-yield ticker gains strictly more shares |
| Dividends.TltOutgainsSpy | src/engine/__tests__/dividends.test.ts:140-151 | TLT gains strictly more shares than SPY from an equal holding |
| Calendar.NextDay | src/lib/dailyChallenge.ts:52 | the day after a calendar date is a calendar date, rolling over month and year ends |
| Calendar.PrevDay | src/lib/dailyChallenge.ts:60 | the day before a calendar date is a calendar date, rolling back over month and year starts |
| Calendar.NextPrevInverse | src/lib/dailyChallenge.ts:58-62 | stepping forward then back, or back then forward, returns the same date |
| Calendar.ShiftDays | src/lib/dailyChallenge.ts:58-62 | shifting a calendar date by any integer number of days gives a calendar date |
| Calendar.EpochIsDayZero | src/lib/dailyChallenge.ts:59 | 1970-01-01 has day number 0 |
| Calendar.DayFromYearStep | src/lib/dailyChallenge.ts:59 | January 1st of consecutive years lie 365 or 366 days apart, by the Gregorian leap rule |
| Calendar.MonthStartStep | src/lib/dailyChallenge.ts:59 | the first days of consecutive months lie one month length apart |
| Calendar.DayNumberNext | src/lib/dailyChallenge.ts:52 | the next day has day number exactly one higher |
| Calendar.DayNumberPrev | src/lib/dailyChallenge.ts:60 | the previous day has day number exactly one lower |
| Calendar.ShiftDaysDayNumber | src/lib/dailyChallenge.ts:58-62 | shifting by `n` days moves the day number by exactly `n`, in both directions |
| Calendar.DayNumberMonotone | src/lib/dailyChallenge.ts:59 | day numbers strictly increase along the calendar |
| Calendar.DayNumberInjective | src/lib/dailyChallenge.ts:59 | distinct calendar dates have distinct day numbers |
| Calendar.ShiftDaysUnique | src/lib/dailyChallenge.ts:58-62 | a date is the `n`-day shift of `d` if and only if its day number is `d`'s plus `n` |
| Calendar.ShiftDaysAdditive | src/lib/dailyChallenge.ts:58-62 | shifting by `n` then by `m` days is shifting by `n + m` |
| Calendar.RolloverExamples | src/lib/__tests__/dailyChallenge.test.ts:171-201 | Feb 28 to Feb 29 only in a leap year, Feb 29 to Mar 1, Dec 31 to Jan 1, Mar 31 to Apr 1, one day back over Mar 1, and ten days forward |
| IsoDate.RangeEnds | src/lib/dailyChallenge.ts:61 | 0000-01-01 and 9999-12-31 have day numbers -719528 and 2932896 |
| IsoDate.RepresentableIffInRange | src/lib/dailyChallenge.ts:61 | a calendar date has a four-digit year if and only if its day number lies between those of 0000-01-01 and 9999-12-31 |
| IsoDate.FormatDate | src/lib/dailyChallenge.ts:61 | the printed date is ten characters with hyphens at positions 4 and 7, and parsing it gives the date back |
| IsoDate.ParseDate | src/lib/dailyChallenge.ts:59 | a string that parses names an existing calendar date with a four-digit year |
| IsoDate.IsoDateFields | src/lib/dailyChallenge.ts:59 | a parsed date string has the `DDDD-DD-DD` shape and names the date its digit groups spell |
| IsoDate.ParseFormat | src/lib/dailyChallenge.ts:59-61 | formatting a parsed date gives back the original string |
| IsoDate.IsoDateInjective | src/lib/dailyChallenge.ts:59-61 | two date strings name the same day only when they are equal |
| DailyChallenge.RemoveHyphensRemovesOnlyHyphens | src/lib/dailyChallenge.ts:10 | removing hyphens leaves none behind and keeps every other character |
| DailyChallenge.DigitPrefixIsLongest | src/lib/dailyChallenge.ts:10 | integer parsing reads the longest run of leading digits |
| DailyChallenge.SkipSpacesDropsSpaces | src/lib/dailyChallenge.ts:10 | only leading white space is skipped before the number |
| DailyChallenge.ParseInt | src/lib/dailyChallenge.ts:10 | parsing gives NaN exactly when no digit follows the optional white space and sign |
| DailyChallenge.ParseIntOfDigits | src/lib/dailyChallenge.ts:10 | parsing a non-empty run of digits gives its decimal value |
| DailyChallenge.SignedRun | src/lib/dailyChallenge.ts:10 | an optional sign before a run of digits is skipped, and only a minus sign negates |
| DailyChallenge.ParseIntOfPrefix | src/lib/dailyChallenge.ts:10 | white space, an optional sign and a digit run, followed by anything not starting with a digit, parse to the signed value of the run; the rest is ignored |
| DailyChallenge.ShapeDigitsValue | src/lib/dailyChallenge.ts:8-11 | `DDDD-DD-DD` with its hyphens removed parses to the eight-digit number its digits spell |
| DailyChallenge.DateSeed | src/lib/dailyChallenge.ts:8-11 | the seed of `DDDD-DD-DD` is the eight-digit number its digits spell |
| DailyChallenge.SeedStopsAtSeparator | src/lib/dailyChallenge.ts:8-11 | a digit run followed by a hyphen-free separator seeds with the run alone |
| DailyChallenge.SlashedDateSeed | src/lib/dailyChallenge.ts:8-11 | the seed of `2026/03/02` is 2026, not a date number |
| DailyChallenge.DateSeedOfIsoDate | src/lib/dailyChallenge.ts:8-11 | the seed of a date is `year*10000 + month*100 + day` |
| DailyChallenge.SeedExample | src/lib/dailyChallenge.ts:9 | the seed of 2026-03-02 is 20260302 |
| DailyChallenge.DateSeedInjective | src/lib/dailyChallenge.ts:8-11 | different dates have different seeds |
| DailyChallenge.ToInt32 | src/lib/dailyChallenge.ts:16 | the signed 32-bit conversion lands in `[-2^31, 2^31)` and agrees with the input modulo 2^32 |
| DailyChallenge.Imul | src/lib/dailyChallenge.ts:17 | 32-bit multiplication gives a signed 32-bit result |
| DailyChallenge.SeededUint | src/lib/dailyChallenge.ts:16-18 | the unsigned state lies in `[0, 2^32)` |
| DailyChallenge.SeededRandom | src/lib/dailyChallenge.ts:14-19 | the generator's value lies in `[0, 1)` |
| DailyChallenge.LcgClosedForm | src/lib/dailyChallenge.ts:14-19 | the signed and unsigned steps equal `u = (seed*1664525 + 1013904223) mod 2^32`, and NaN acts as seed 0 |
| DailyChallenge.ConsecutiveSeedsStep | src/lib/dailyChallenge.ts:14-19 | consecutive seeds move the state by exactly the multiplier, modulo 2^32 |
| DailyChallenge.ScenarioIndex | src/lib/dailyChallenge.ts:34 | the index lies in `[0, n)` |
| DailyChallenge.ScenarioIndexIsFloor | src/lib/dailyChallenge.ts:34 | the integer index `(u*n) div 2^32` is exactly the floor of `(u / 2^32) * n` |
| DailyChallenge.GetDailyScenario | src/lib/dailyChallenge.ts:32-36 | the result is an error exactly when the catalog is empty, the error is "No scenarios available", and a result is always an element of the catalog |
| DailyChallenge.SingleScenarioAlwaysChosen | src/lib/__tests__/dailyChallenge.test.ts:81-87 | a one-scenario catalog always gives that scenario, for any date |
| DailyChallenge.ChoiceDependsOnSeedOnly | src/lib/__tests__/dailyChallenge.test.ts:89-95 | the same seed and catalog give the same scenario |
| DailyChallenge.AddDays | src/lib/dailyChallenge.ts:58-62 | the result is a valid date string whose day number is the input's plus `n`, for negative `n` too |
| DailyChallenge.AddDaysUnique | src/lib/dailyChallenge.ts:58-62 | a date string is `AddDays(s, n)` if and only if its day number is `s`'s plus `n` |
| DailyChallenge.AddDaysZero | src/lib/__tests__/dailyChallenge.test.ts:163-165 | adding zero days returns the same string |
| DailyChallenge.AddDaysCompose | src/lib/dailyChallenge.ts:58-62 | adding `a` days then `b` days is adding `a + b` days |
| DailyChallenge.AddDaysInverse | src/lib/__tests__/dailyChallenge.test.ts:198-201 | adding `n` days and then `-n` days gives the start back |
| DailyChallenge.AddDaysBetween | src/lib/__tests__/dailyChallenge.test.ts:159-201 | formatted dates whose day numbers are `n` apart are related by `addDays` with `n` |
| DailyChallenge.GetUpcomingChallenges | src/lib/dailyChallenge.ts:42-55 | zero or negative `days` gives an empty list; an empty catalog with positive `days` fails with "No scenarios available"; otherwise there are exactly `days` entries, entry `i` is dated `addDays(from, i)`, the first is `from`, each is the day after the previous, and each carries that date's daily scenario |
| DailyChallenge.ConsecutiveDates | src/lib/__tests__/dailyChallenge.test.ts:111-121 | entries whose day numbers count up from `from` are `addDays(from, i)`: the first is `from` and each is one day after the previous |
| DailyChallenge.DatedEntry | src/lib/dailyChallenge.ts:50-52 | a date string `n` day numbers after `s` is `addDays(s, n)` |
| DailyChallenge.IsDailyLockConflict | src/lib/__tests__/dailyChallenge.test.ts:227-268 | a conflict happens only on the lock's own day, and only when the catalog lists the locked scenario and it is not the target |
| DailyChallenge.LockConflictCases | src/lib/__tests__/dailyChallenge.test.ts:227-255 | there is no conflict without a lock date, with an earlier lock date, without a locked slug, when the locked slug is the target, or when the locked slug is no longer in the catalog |
| DailyChallenge.TodayLockBlocksOthers | src/lib/__tests__/dailyChallenge.test.ts:243-260 | a lock taken today on a listed slug blocks exactly the other slugs |
| DailyChallenge.ShrinkingCatalogNeverBlocksMore | src/lib/__tests__/dailyChallenge.test.ts:249-255 | a conflict under a smaller catalog is also a conflict under any larger one, so a removed scenario never blocks |
| Simulator.CreatePortfolio | src/engine/__tests__/simulator.test.ts:40-56 | a new portfolio is all cash, with no positions and cash = total = starting value |
| Simulator.FindPosition | src/engine/__tests__/simulator.test.ts:237-251 | the search finds the first position with the ticker, or reports that there is none |
| Simulator.BuyPrice | src/engine/__tests__/simulator.test.ts:201-212 | a buy executes exactly when the ticker has a positive open at the tick, and then at that open |
| Simulator.ExecuteTrade | src/engine/__tests__/simulator.test.ts:201-235 | an executed buy lowers cash by exactly its amount; a buy without a price leaves the portfolio as it is; starting value and total are kept |
| Simulator.ExecuteTrades | src/engine/__tests__/simulator.test.ts:237-251 | executing the queue in order keeps the starting value |
| Simulator.TradesSpendCash | src/engine/__tests__/simulator.test.ts:228-251 | after the queue, cash is the old cash minus the amounts of the buys that executed |
| Simulator.BuyAddsUnits | src/engine/__tests__/simulator.test.ts:201-212 | a buy of amount A at open O adds A/O units of its ticker, leaves other tickers' holdings alone, keeps one position per ticker, and opens a position only for a ticker not yet held; a held position changes only in quantity, and a new one is appended entered and priced at O and worth exactly A |
| Simulator.TradesKeepOnePositionPerTicker | src/engine/__tests__/simulator.test.ts:237-251 | several buys applied in sequence keep one position per ticker |
| Simulator.RevaluePosition | src/engine/__tests__/simulator.test.ts:214-226 | the price becomes the tick's close, or stays as it was without a close; value = quantity × price; nothing else changes |
| Simulator.RevaluePositions | src/engine/__tests__/simulator.test.ts:214-226 | every position is repriced, with count and order kept |
| Simulator.Revalue | src/engine/__tests__/simulator.test.ts:214-226 | after revaluation the portfolio is consistent, and cash and starting value are kept |
| Simulator.CumulativeReturn | src/engine/__tests__/simulator.test.ts:269-286 | with a nonzero start, the return times the start is the gain in value; with a positive start, the return is positive if and only if value rose, and zero if and only if value is unchanged |
| Simulator.TickPortfolio | src/engine/__tests__/simulator.test.ts:200-398 | trades, then valuation, then reinvestment: the tick's portfolio is consistent, keeps the starting value and the cash the trades left, and keeps the traded positions' number and tickers |
| Simulator.AdvanceTick | src/engine/__tests__/simulator.test.ts:89-182 | with no point at the cursor, only `isComplete` is set and nothing else changes; otherwise the cursor rises by 1, one snapshot is appended dated by the series and mirroring total and cash, pending trades are cleared, the configuration and starting value are kept, the portfolio stays consistent, the snapshot records the portfolio's cumulative return, and the run completes exactly when the cursor reaches the series length |
| Simulator.TickKeepsOnePositionPerTicker | src/engine/__tests__/simulator.test.ts:237-251 | a tick keeps one position per ticker |
| Simulator.TickRevaluesPositions | src/engine/__tests__/simulator.test.ts:292-395 | after a tick each position is repriced at its close; without DRIP its quantity is what the trades left; with DRIP it is the DRIP form of its repriced self; cash is what the trades left |
| Simulator.RunCursor | src/engine/__tests__/simulator.test.ts:120-163 | `n` ticks inside the series move the cursor `n` places, add `n` snapshots, and complete exactly at the series end |
| Simulator.RunProgress | src/engine/__tests__/simulator.test.ts:129-146 | snapshots from `n` ticks extend the history without changing it, dated by the series in order |
| Simulator.FullRun | src/engine/__tests__/simulator.test.ts:401-429 | an `N`-point series completes after exactly `N` ticks and not before, with `N` snapshots, the last dated by the last point; a further tick changes nothing |
| Simulator.AllCashTickHasZeroReturn | src/engine/__tests__/simulator.test.ts:269-274 | an untouched all-cash portfolio keeps its state through a tick, and its snapshot's return is 0 |
| Simulator.DripTickOnSpyAndBtc | src/engine/__tests__/simulator.test.ts:325-395 | with DRIP on and nothing pending, a tick adds `q*0.018/252` units of SPY, leaves BTC units alone, and keeps cash |
| Milestones.IntervalMs | src/hooks/useSimulation.ts:42 | speeds 1, 5 and 10 give 500, 100 and 50 ms; any other speed gives 500 ms |
| Milestones.ReturnPct | src/hooks/useSimulation.ts:51 | the return times the starting value is the gain, and it is non-negative exactly when value did not fall |
| Milestones.CrossedInValueTerms | src/hooks/useSimulation.ts:51-56 | an up milestone is reached exactly when value is at least `start*(1+threshold)`; a down milestone when it is at most that |
| Milestones.Tracker.constructor | src/hooks/useSimulation.ts:36 | a run starts with an empty fired set |
| Milestones.Tracker.OnCompletionChange | src/hooks/useSimulation.ts:73-77 | the fired set is emptied when the run becomes incomplete and kept otherwise |
| Milestones.Tracker.CheckAfterTick | src/hooks/useSimulation.ts:47-61 | without a state or with a non-positive start nothing fires and nothing changes; otherwise the firings and new fired set are those of the in-order check over the table |
| Milestones.Tracker.NotifyAfterTick | src/hooks/useSimulation.ts:47-61 | the store ends as the last five of its old events plus one event per firing, in firing order; the fired set is as after `CheckAfterTick` |
| Milestones.EventsFor | src/hooks/useSimulation.ts:59 | one event per firing, made from its threshold, in firing order |
| Milestones.DueMembers | src/hooks/useSimulation.ts:53-58 | the reference list holds exactly the milestones that are reached and not fired yet |
| Milestones.DueConcat | src/hooks/useSimulation.ts:53 | the reference list of a concatenation is the concatenation of the reference lists |
| Milestones.FiredAfterMembers | src/hooks/useSimulation.ts:54-58 | a key ends up fired exactly when it was fired before or a milestone with that key is reached; nothing is ever un-fired |
| Milestones.FiringsAreFresh | src/hooks/useSimulation.ts:54-58 | every firing is reached and was not fired before, no key fires twice, and the new fired set is the old one plus the keys that fired |
| Milestones.RecheckFiresNothing | src/hooks/useSimulation.ts:54 | checking again with the resulting fired set fires nothing and changes nothing |
| Milestones.AllReachedFired | src/hooks/useSimulation.ts:54 | when every reached milestone is already fired, a check is a no-op |
| Milestones.FiringsAreDue | src/hooks/useSimulation.ts:53-61 | with distinct keys, the in-order check fires exactly the reached, unfired milestones, in table order |
| Milestones.MilestoneKeysDistinct | src/hooks/useSimulation.ts:15-21 | the table's keys are distinct |
| Milestones.DueOfTable | src/hooks/useSimulation.ts:15-21 | over the table, the reference list is the five milestones considered one by one |
| Milestones.ThirtyPercentExample | src/hooks/useSimulation.ts:53-61 | a fresh run at +30% fires +10% then +25% |
| Milestones.MinusFiftyExample | src/hooks/useSimulation.ts:53-61 | a fresh run at -50% fires -20% then -50% |
| Milestones.SixtyPercentAfterTenExample | src/hooks/useSimulation.ts:53-61 | at +60% with +10% already fired, +25% and +50% fire |
| Milestones.SmallMoveExample | src/hooks/useSimulation.ts:53-61 | a 5% move fires nothing |
| MilestoneStore.LastN | src/store/milestoneStore.ts:18 | the result has length `min(|s|, n)` and is the suffix of `s` of that length |
| MilestoneStore.WithoutId | src/store/milestoneStore.ts:19 | filtering never makes the list longer |
| MilestoneStore.Store.constructor | src/store/milestoneStore.ts:17 | the store starts with no events |
| MilestoneStore.Store.AddEvent | src/store/milestoneStore.ts:18 | the events become the last five of the old events followed by the new one |
| MilestoneStore.Store.DismissEvent | src/store/milestoneStore.ts:19 | the events become the old events without those with the id |
| MilestoneStore.AddEventEffect | src/store/milestoneStore.ts:18 | after adding, the new event is last, the length is `min(old+1, 5)`, and the oldest event is dropped only when the list held five |
| MilestoneStore.AddAllKeepsLastN | src/store/milestoneStore.ts:18 | adding events one at a time leaves the last five of everything added, in order |
| MilestoneStore.LastNConcat | src/store/milestoneStore.ts:18 | trimming before appending does not change the last `n` of the whole |
| MilestoneStore.WithoutIdMembers | src/store/milestoneStore.ts:19 | dismissing keeps exactly the events with another id |
| MilestoneStore.WithoutIdConcat | src/store/milestoneStore.ts:19 | dismissing works element by element, so the kept events stay in their original order |
| MilestoneStore.WithoutAbsentId | src/store/milestoneStore.ts:19 | dismissing an id that no event has leaves the list unchanged |
| MilestoneStore.WithoutIdIdempotent | src/store/milestoneStore.ts:19 | dismissing the same id twice is the same as dismissing it once |

## Left out

- Numbers are exact: prices, quantities and yields are `real`, and the generator and the index use unbounded integers with the 32-bit wrap-around written out. IEEE-754 rounding is not modelled.
- DailyChallenge.ScenarioIndex: computes the floor of `u/2^32 * n` exactly. The source's floating-point product matches it when the catalog has fewer than 2^21 scenarios.
- DailyChallenge.ParseInt: treats only space, tab, newline and carriage return as leading white space. It reads digit runs of any length exactly, where the source loses precision beyond 2^53.
- DailyChallenge.AddDays: requires a valid `YYYY-MM-DD` input and a result with a four-digit year. The JavaScript date parser used by the source accepts a day from 1 to 31 in any month and rolls an overflow into the next month, so `addDays("2026-02-30", 0)` returns `"2026-03-02"`; it throws only on strings the parser rejects. Outside 0..9999 the source prints six-digit years.
- DailyChallenge.GetUpcomingChallenges: requires a valid start date and a last day with a four-digit year, for the same reason.
- IsoDate.ParseDate: accepts only the canonical `YYYY-MM-DD` form naming a day that exists. Other strings that the JavaScript date parser accepts are not modelled, nor are days 29 to 31 beyond the month's end, which that parser rolls into the next month.
- The current date (`getTodayString`) is a clock read. It is the `today` parameter of `DailyChallenge.IsDailyLockConflict`.
- `isDailyLockConflict` is not in the daily-challenge source file. It is written from its test table. The persistence of the lock in `src/store/dailyChallengeStore.ts` (two fields in local storage) is not part of this model.
- The statistical tests are not modelled: "most consecutive days differ" and "every scenario is visited within 200 days" are claims about the generator's output distribution, not all-inputs properties.
- Simulator.ExecuteTrade: a sell leaves the portfolio unchanged. Sell execution lives in `src/engine/portfolio.ts`, which is not part of this model, and no test exercises it. A new position's id and name are its ticker, its entry date is the tick's date, and its instrument kind comes from the `kindOf` parameter.
- Dividends.AnnualYield: reads only the table's own tickers. In the source a ticker such as `constructor` or `toString` finds an inherited object member, which makes the quantity NaN; the model gives such a ticker yield 0.
- Simulator.CumulativeReturn: returns 0 when the starting value is 0, where the source's division would give NaN or Infinity.
- Simulator.AdvanceTick: the reference series that dates each tick is an explicit `anchor` ticker. Trading rules, the narrator queue, the rules log, allocations and option pricing are not part of this model: their implementations are not in the modelled files, and no test of the tick exercises them.
- Milestones.Tracker.NotifyAfterTick: hands the events to the store after the threshold loop, not interleaved with it. The loop never reads the store, so the resulting fired set and event list are the same.
- The popup event built for a milestone (`generateMilestoneEvent`, in `src/lib/narrator.ts`) is not part of this model. It is the `makeEvent` parameter, and a narrator event carries only an id, a severity and its content.
- Timers are left out of the playback hook: `setInterval`, `clearInterval`, the auto-pause effect and the store subscriptions. The speed table (`Milestones.IntervalMs`) is modelled.
