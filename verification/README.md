# DerSocialStatter trading core, modelled in Dafny

DerSocialStatter is an automated crypto-currency trader. It ranks coins by the
growth of their subreddits, rebalances its portfolio on an exchange, and can be
replayed against recorded data in a simulator. This project models the
bookkeeping at its centre and proves properties of it:

- `policies.dfy` (module `Policies`) covers the rebalancing policy:
  - `__sell_and_spendings__` splits the net worth over the top K = 4 coins, either equally or by growth (shifted when the last growth is negative);
  - it removes already-owned buy coins from the sell list and hands their value to the other buy coins (wash-trade avoidance);
  - it runs the minimum-spend loop, which only changes the owned-coins dict;
  - `subreddit_growth_policy` waits 23 hours after the last trade, then issues all sells and then all buys.
- `binance_adapter.dfy` (module `BinanceAdapter`) covers the exchange-side arithmetic of the Binance adapter:
  - the portfolio of positive balances;
  - valuation against tickers, and net worth;
  - the minimum-notional check and step-size round-down of a market buy;
  - the latest trade time.
- `market.dfy` (module `SimMarket`) covers the simulated market: a `Trader` with funds, and a `Market` whose coin ledger is changed in place by `Buy`/`Sell`.
- `simulator.dfy` (module `Simulation`) covers the simulator clock: `Run` steps the time by a fixed delta while it is before the end time, calling the policy once per step.
- `coinmarketcap.dfy` (module `CoinMarketCap`) covers coin matching against the CoinMarketCap ticker records (first match, alphanumeric lower-case id) and USD valuation.
- `database.dfy` (module `Database`) covers:
  - the row filter and order of `get_rows_for_subreddit`;
  - the nearest-row selection and weighting of `get_interpolated_data`.
- `collections.dfy` (module `Collections`) holds the shared dictionary model:
  - an insertion-ordered Python dict is a `Dict` of a key sequence and a map;
  - `Put` is `d[k] = v` and `Pop` is `d.pop(k, None)`;
  - there are sums and helpers over these.

Every answer of the outside world is an input to the model: the exchange client, the ticker API, the database rows, the clock, the subreddit-to-symbol lookup and the growth ranking. Loops in the source are loops here, each proved equal to a specification function, and the lemmas state what that function means.

## Model

| member | source | states |
|---|---|---|
| Policies.BuyCoins | AutoTrader/policies.py:22 | the buy coins are the symbols of the growth entries, one per entry, in ranking order |
| Policies.Shifted | AutoTrader/policies.py:26-31 | the smoothed growths keep length K |
| Policies.ShiftGrowths | AutoTrader/policies.py:26-31 | the in-place shift loop yields `Shifted` |
| Policies.ShiftedAtLeastOne | AutoTrader/policies.py:27-31 | when the K-th growth is negative it becomes exactly 1; when it is also the smallest, every shifted growth is at least 1 and their sum at least 4 |
| Policies.EqualSplit | AutoTrader/policies.py:35-37 | each of the K amounts is net_worth / K |
| Policies.SplitEqually | AutoTrader/policies.py:35-37 | the loop builds the dict pairing each buy coin with its equal amount |
| Policies.EqualSplitValues | AutoTrader/policies.py:35-37 | unscaled, before wash-trade avoidance, every buy coin is given exactly net_worth / K |
| Policies.EqualSplitSumsToNetWorth | AutoTrader/policies.py:36-37 | the equal amounts add up to the net worth |
| Policies.Proportional | AutoTrader/policies.py:32-34 | the i-th amount is (growth_i / growth_sum) · net_worth |
| Policies.SplitProportionally | AutoTrader/policies.py:33-34 | the loop builds the dict pairing each buy coin with its proportional amount |
| Policies.ProportionalShares | AutoTrader/policies.py:32-34 | four proportional shares of a sum add up to that sum |
| Policies.ProportionalSumsToNetWorth | AutoTrader/policies.py:32-34 | the proportional spends add up to the net worth |
| Policies.ScaledSplitValues | AutoTrader/policies.py:26-34 | scaled, with distinct buy coins, the growth sum after shifting is non-zero and coin i gets its shifted growth's share of the net worth |
| Policies.BaseSpend | AutoTrader/policies.py:25-37 | on success the spend dict has exactly the buy coins as keys, in first-occurrence order |
| Policies.Allocate | AutoTrader/policies.py:25-37 | the branch on the scaling switch yields `BaseSpend`, failing on a zero growth sum |
| Policies.BaseSpendSumsToNetWorth | AutoTrader/policies.py:25-37 | with distinct buy coins, the base split spends exactly the net worth |
| Policies.WashAdjusted | AutoTrader/policies.py:41-53 | the adjusted spend dict has the same keys as before adjustment |
| Policies.Redistribute | AutoTrader/policies.py:47-53 | the inner loop adds the share to every buy-coin occurrence other than the sold coin, once per occurrence, and changes nothing else |
| Policies.VisitSpendEntry | AutoTrader/policies.py:41-53 | one round: a spend key not on the sell list changes nothing; one on it leaves the sell list, loses its owned value, and the other buy coins gain a third of that value each |
| Policies.WashRound | AutoTrader/policies.py:41-53 | one such round moves the partial spend dict from the closed form over the visited keys to the closed form with one more key |
| Policies.WashedUpToAllKeys | AutoTrader/policies.py:41-53 | after all spend keys are visited, the iteration's values are the closed form `WashAdjusted` |
| Policies.AvoidWashTrades | AutoTrader/policies.py:40-53 | the loop over `spend.items()` returns as sell list the owned coins that are not spend keys (in owned order), and as spend dict the closed form |
| Policies.RedistributedClosed | AutoTrader/policies.py:49-53 | with distinct spend keys a coin receives a third of the owned value of every sold spend key other than itself |
| Policies.RedistributedNone | AutoTrader/policies.py:41-53 | when no spend key is owned nothing is redistributed |
| Policies.WashAdjustedNoOverlap | AutoTrader/policies.py:41-42 | when no buy coin is owned, the adjustment leaves the spend dict as it is |
| Policies.WashAdjustedValue | AutoTrader/policies.py:46-53 | a coin's adjusted spend is its base spend, less its owned value if owned, plus a third of the other owned buy coins' values |
| Policies.WashAdjustedShape | AutoTrader/policies.py:46-53 | the per-coin adjusted spend, for every buy coin at once |
| Policies.WashAdjustedConserves | AutoTrader/policies.py:46-53 | with K distinct buy coins the adjustment preserves the sum of the spend dict |
| Policies.SumOverWashShape | AutoTrader/policies.py:46-53 | when every sold coin loses its owned value plus a third and every coin gains t, the sum drops by the sold coins' value and a third of it and rises by t per coin |
| Policies.SmallSellsSnoc | AutoTrader/policies.py:55-57 | visiting one more sell coin adds it to the small set exactly when its owned value is below the minimum spend |
| Policies.PruneStep | AutoTrader/policies.py:55-57 | one round of the minimum-spend loop pops the coin from the owned dict exactly when it is small |
| Policies.PruneSmallSells | AutoTrader/policies.py:55-57 | the loop leaves the owned dict without the small sell coins (keys and order otherwise kept); it never touches the sell list |
| Policies.ExpectedPlan | AutoTrader/policies.py:16-58 | fails exactly when there are not K growths; on success: the spend keys are the buy coins; the sell list has no duplicates and holds exactly the owned coins that are neither "BTC" nor buy coins; sell list and spend keys are disjoint |
| Policies.SellAndSpendings | AutoTrader/policies.py:16-58 | the function's steps in order yield `ExpectedPlan`; the minimum-spend loop does not change the plan |
| Policies.PlanConservesNetWorth | AutoTrader/policies.py:20-53 | with distinct buy coins the plan's spend dict adds up to exactly the net worth |
| Policies.Orders | AutoTrader/policies.py:76-79 | every sell comes before any buy; one sell per sell-list coin and one buy per spend entry with its amount, in order |
| Policies.IssueOrders | AutoTrader/policies.py:76-79 | the two order loops issue `Orders` |
| Policies.TopK | AutoTrader/policies.py:72-73 | the ranking handed over is the growth ranking reversed, cut to its first K entries |
| Policies.SubredditGrowthPolicy | AutoTrader/policies.py:61-79 | with a trade less than 23 hours old nothing is issued; otherwise the orders of the plan for the top K, or the plan's failure |
| BinanceAdapter.PairName | AutoTrader/binance_adapter.py:19 | the pair name is the symbol followed by the mode, nothing more |
| BinanceAdapter.PairNameInjective | AutoTrader/binance_adapter.py:19 | against one mode, two symbols with the same pair name are equal |
| BinanceAdapter.PortfolioOf | AutoTrader/binance_adapter.py:110-115 | every portfolio entry is positive |
| BinanceAdapter.PortfolioMembers | AutoTrader/binance_adapter.py:110-115 | an asset is in the portfolio exactly when some balance entry of it is positive |
| BinanceAdapter.PortfolioOfSnoc | AutoTrader/binance_adapter.py:112-114 | one more balance entry sets the asset's amount when positive and changes nothing otherwise |
| BinanceAdapter.PortfolioLastPositive | AutoTrader/binance_adapter.py:112-114 | an asset's amount is its last positive free amount |
| BinanceAdapter.GetPortfolio | AutoTrader/binance_adapter.py:110-115 | the loop builds `PortfolioOf` |
| BinanceAdapter.LastPrice | AutoTrader/binance_adapter.py:101-103 | no price exactly when no ticker has the pair; otherwise the price of such a ticker |
| BinanceAdapter.LastPriceIsLast | AutoTrader/binance_adapter.py:101-103 | the price used is that of the last ticker with the pair, as the loop overwrites |
| BinanceAdapter.LastPriceSnoc | AutoTrader/binance_adapter.py:101-103 | one more ticker overrides the price exactly when its symbol is the pair |
| BinanceAdapter.FundsValueOf | AutoTrader/binance_adapter.py:96-104 | keys are the portfolio coins that are the mode or have a ticker; the mode's amount is copied; any other coin is amount × its pair's price |
| BinanceAdapter.ValueAtTickers | AutoTrader/binance_adapter.py:100-103 | the inner ticker loop values the coin at the last matching ticker, or leaves the dict unchanged |
| BinanceAdapter.GetPortfolioFundsValue | AutoTrader/binance_adapter.py:89-104 | the outer loop builds `FundsValueOf` |
| BinanceAdapter.NetWorth | AutoTrader/binance_adapter.py:85-87 | `get_net_worth`, the sum of the valuation's values, is non-negative whenever no ticker price is negative |
| BinanceAdapter.ValuationNonnegative | AutoTrader/binance_adapter.py:86-87 | with non-negative prices, the values summed by `get_net_worth` add up to at least zero |
| BinanceAdapter.SumOverNonnegative | AutoTrader/binance_adapter.py:87 | a sum of non-negative values is non-negative |
| BinanceAdapter.BuyBySymbol | AutoTrader/binance_adapter.py:18-28 | an order exists exactly when ask and step size are non-zero and the total reaches the minimum notional; a total below it submits nothing; the order is on the pair symbol+mode |
| BinanceAdapter.PyMod | AutoTrader/binance_adapter.py:28 | Python's float `%`: for a positive divisor the remainder is in [0, y), for a negative one in (y, 0], and x minus it is a whole multiple of y |
| BinanceAdapter.PyModBounds | AutoTrader/binance_adapter.py:28 | the floor-based remainder has the divisor's sign, is smaller than the divisor in size, and leaves a whole multiple |
| BinanceAdapter.RoundDownToStep | AutoTrader/binance_adapter.py:28 | `qty - qty % step` rounds down to within one step for a positive step, and up to within one step for a negative step |
| BinanceAdapter.RoundDownBounds | AutoTrader/binance_adapter.py:28 | `q - q % step` is a multiple of the step, at most q, within one step of q, and non-negative for non-negative q |
| BinanceAdapter.BuyQuantity | AutoTrader/binance_adapter.py:21-28 | the submitted quantity is total/ask rounded down to a multiple of the step size |
| BinanceAdapter.MaxOf | AutoTrader/binance_adapter.py:128 | the maximum is an element and bounds every element |
| BinanceAdapter.LatestTradeMs | AutoTrader/binance_adapter.py:121-129 | succeeds exactly when every owned non-mode coin has trades; the result is ≥ 0, bounds every such trade time, and is 0 or one of them |
| BinanceAdapter.LatestTradeMsFailurePersists | AutoTrader/binance_adapter.py:123-128 | the first coin without trades decides the error |
| BinanceAdapter.LatestTradeMsSnoc | AutoTrader/binance_adapter.py:123-129 | one more coin: skipped if the mode, fails without trades, else raises the latest time to its own maximum |
| BinanceAdapter.GetLastTradeDate | AutoTrader/binance_adapter.py:117-130 | the loop yields `LatestTradeMs`, converted from milliseconds to seconds |
| SimMarket.Trader.constructor | simulator/market.py:15-20 | the trader starts with the given funds |
| SimMarket.OwnedOf | simulator/market.py:72-80 | exactly the coins with a positive balance, with their balances |
| SimMarket.OpenedMarketOwnsNothing | simulator/market.py:34-36 | a freshly opened market owns no coins |
| SimMarket.OwnedAfterBuy | simulator/market.py:51-53 | after a positive buy at a positive price with fees below 1, the coin is among the owned coins |
| SimMarket.Market.constructor | simulator/market.py:30-36 | every listed coin, and no other, has balance 0.0; fees as given |
| SimMarket.Market.Buy | simulator/market.py:44-53 | funds below the total: InsufficientFunds and nothing changes (equality is allowed); otherwise funds drop by the total and the coin's balance rises by total·(1-fees)·price, other coins unchanged; an unlisted coin fails after the funds dropped |
| SimMarket.Market.Sell | simulator/market.py:57-68 | no total means the whole balance; a balance below the total or a zero total is refused with no change; otherwise funds rise by (1-fees)·total·price and the ledger is not touched |
| SimMarket.Market.OwnedCoins | simulator/market.py:72-80 | the loop builds `OwnedOf` |
| SimMarket.Market.CurrentBalance | simulator/market.py:82-83 | the coin's balance, failing exactly for an unlisted coin |
| Simulation.AdvancedIsLinear | simulator/__init__.py:32-33 | n steps of d from t reach t + n·d |
| Simulation.AdvancedMonotone | simulator/__init__.py:32 | with a positive delta, more steps reach a later time |
| Simulation.ShiftAdvanced | simulator/__init__.py:32 | stepping from t + d equals stepping once more from t |
| Simulation.StepCountIsLeast | simulator/__init__.py:38-39 | the step count is the least n whose time reaches the end; it is zero exactly when the start is at or after the end, whatever the delta |
| Simulation.Schedule | simulator/__init__.py:31-33 | call i is the policy at time t + i·d with step number i |
| Simulation.Simulator.constructor | simulator/__init__.py:11-22 | the clock starts at the start time, the step counter is unset (`__init__` never assigns `steps`), and nothing has been called |
| Simulation.Simulator.SimulationStep | simulator/__init__.py:24-33 | callable only once `run` has set the step counter (before that `self.steps` raises AttributeError); the policy is called once with the current time and step, then time += delta and steps += 1 |
| Simulation.Simulator.Run | simulator/__init__.py:35-40 | needs a positive delta only when the run starts before the end; steps is set to 0; the policy is called at each time before the end and not after; on exit steps is the least count that reaches the end and time = start + steps·delta ≥ end; `sell_all` is called exactly once, after the loop |
| CoinMarketCap.Lower | coinmarketcap.py:70 | an upper-case letter maps to its lower-case letter (code + 32); every other character is unchanged |
| CoinMarketCap.NormalizeId | coinmarketcap.py:70 | the normalised id is no longer than the id and holds only lower-case alphanumerics |
| CoinMarketCap.NormalizeIdSingle | coinmarketcap.py:70 | a single character is kept, lower-cased, exactly when it is alphanumeric |
| CoinMarketCap.NormalizeIdAppend | coinmarketcap.py:70 | normalising a concatenation is concatenating the normalisations: characters are filtered one by one |
| CoinMarketCap.NormalizeIdIdempotent | coinmarketcap.py:70 | normalising twice is normalising once |
| CoinMarketCap.NormalizedIsFixed | coinmarketcap.py:70 | a lower-case alphanumeric id is its own normalisation |
| CoinMarketCap.FirstMatch | coinmarketcap.py:69-82 | no index exactly when no record matches; otherwise the first matching record |
| CoinMarketCap.FirstMatchAt | coinmarketcap.py:69-82 | a matching record with no earlier match is the one chosen |
| CoinMarketCap.MatchedKey | coinmarketcap.py:69-73 | a requested coin has a key exactly when some record matches it, and the key is its first match's normalised id |
| CoinMarketCap.PriceDataOf | coinmarketcap.py:66-85 | every entry is some record's data under that record's normalised id; the key of every matched requested coin is present |
| CoinMarketCap.LastWithKey | coinmarketcap.py:67-73 | none exactly when no requested coin is recorded under the key; otherwise the last requested coin recorded under it |
| CoinMarketCap.LastWithKeySnoc | coinmarketcap.py:67-73 | the last coin recorded under a key is the final requested coin if it is, and otherwise the last one before it |
| CoinMarketCap.PriceDataOfLastMatch | coinmarketcap.py:66-85 | the keys are exactly the normalised ids of the first matches of requested coins; under each key is the first match of the LAST requested coin with that key, since a later coin overwrites `d[normalized_id]` |
| CoinMarketCap.PriceDataOfAt | coinmarketcap.py:66-85 | the same for one key, by induction over the requested coins |
| CoinMarketCap.UnmatchedAddsNothing | coinmarketcap.py:83-84 | a requested coin with no match adds no entry |
| CoinMarketCap.GetCoinPriceData | coinmarketcap.py:55-85 | the nested loops with `break` build `PriceDataOf` |
| CoinMarketCap.FirstWithSymbol | coinmarketcap.py:23-26 | none exactly when no price entry has the symbol; otherwise an entry with that symbol |
| CoinMarketCap.FirstWithSymbolAt | coinmarketcap.py:23-26 | the entry chosen is the first in dict order with the symbol |
| CoinMarketCap.ValuesUsdOf | coinmarketcap.py:21-27 | keys are the portfolio coins with a price entry of that symbol; each value is amount × that entry's price |
| CoinMarketCap.ValueAtFirstSymbol | coinmarketcap.py:23-26 | the inner loop values the coin at the first entry with its symbol, or changes nothing |
| CoinMarketCap.GetCoinValuesUsd | coinmarketcap.py:15-27 | the loop yields `ValuesUsdOf` over the matched price data |
| CoinMarketCap.CoinNamesOf | coinmarketcap.py:40 | `get_coin_names`: one item per record, in record order, the record's id |
| CoinMarketCap.CoinAliasesOf | coinmarketcap.py:53 | `get_coin_aliases`: one item per record, in record order, the record's [id, name, symbol] |
| CoinMarketCap.AliasesExtendNames | coinmarketcap.py:40-53 | both lists have one item per record; each alias entry has three items and begins with the name-list entry of the same record |
| Database.RowsInWindow | database.py:119-121 | exactly the subreddit's rows with end_time < end and start_time > start, with their multiplicity |
| Database.ConsDescending | database.py:120 | a row ending no earlier than all others, put in front of rows in descending end time, keeps them descending |
| Database.InsertByEndTime | database.py:120 | inserting keeps end_time descending and adds the row |
| Database.SortByEndTimeDesc | database.py:120 | the result is ordered by end_time descending and is a permutation of the rows |
| Database.RowsForSubreddit | database.py:116-122 | start defaults to the epoch and end to now; the window's rows, and only those, ordered by end_time descending |
| Database.NextNewer | database.py:157-160 | none exactly when no row of the subreddit ends after t; otherwise such a row with the smallest end_time |
| Database.NextOlder | database.py:161-164 | none exactly when no row of the subreddit ends before t; otherwise such a row with the largest end_time |
| Database.WeightNewer | database.py:170-171 | the newer row's weight is 1 at the older row's end time, 0 at the newer row's, and strictly between 0 and 1 in between |
| Database.WeightOlder | database.py:170-172 | the older row's weight is 1 minus the newer row's |
| Database.MixBetween | database.py:173 | a mix of two numbers with weights in (0, 1) summing to 1 lies between them |
| Database.MixWithin | database.py:173 | the same, for each of the four metrics at once |
| Database.Combined | database.py:170-173 | strictly between the two rows, every metric of the result lies between the two rows' values |
| Database.WeightsAreConvex | database.py:170-172 | between the rows each weight is in (0, 1) and they sum to 1 |
| Database.InterpolatedData | database.py:152-173 | no rows: failure; only a newer row: the ValueError; only an older row: its metrics unchanged |
| Database.InterpolatedBetweenRows | database.py:169-173 | with rows on both sides, t lies strictly between them and the result is their convex combination as written |
| Database.CombinedEndpointsSwapped | database.py:171-173 | as written, the formula gives the newer row's metrics at the older row's time and vice versa |
| Database.ExampleWeights | database.py:171-172 | the weights of the counterexample: 0.9 on the newer row, 0.1 on the older |
| Database.CombinedCounterexample | database.py:170-173 | for rows 0 at time 0 and 10 at time 10, the formula gives 9 at time 1 where linear interpolation gives 1 |
| Database.ExampleLookup | database.py:157-164 | in the counterexample table the rows chosen around time 1 are the rows at 10 and 0 |
| Database.InterpolatedCounterexample | database.py:152-173 | `get_interpolated_data` as written returns 9 for that table at time 1 |
| Database.LinearInterpolatedData | database.py:152-173 | the corrected lookup fails exactly when the original does and agrees with it when there is no newer row |
| Database.LinearCombinedIsLinear | database.py:169-173 | the corrected combination meets each row at its own end time, and each of the four metrics (subscribers, submissions, comment rate, mentions) changes by the same amount per second: the rows' difference in it over the interval |
| Database.LinearCombinedEndpoints | database.py:169-173 | the corrected combination is the older row's metrics at its end time and the newer row's at its own |
| Database.LinearCombinedStep | database.py:170-173 | one second later every metric of the corrected combination has moved by the rows' difference in it over the interval |
| Database.MixStep | database.py:173 | moving a fixed amount of weight from one row to the other changes every metric of the mix by that amount times the rows' difference in it |
| Database.WeightStep | database.py:171-172 | one second later the older row's weight is larger, and the newer row's smaller, by one over the interval |
| Database.LinearInterpolatedExample | database.py:152-173 | the corrected lookup returns 1 for the counterexample table at time 1 |

## Left out

- I/O. The psycopg2 connection, the HTTP requests, JSON decoding, the Binance client and order submission (`create_test_order` and its `BinanceAPIException` path) are not modelled. Their answers are inputs.
- Logging, `print` and `verbose` output are not modelled. The model takes the path on which they do not fail, but two of them raise as written:
  - with `verbose` on (the default), `simulation_step` calls `self.market.portfolio_value(self.trader)` (simulator/__init__.py:25-26), and `portfolio_value` is declared without `self` (simulator/market.py:95), so each step raises a TypeError;
  - `get_coin_price_data` logs an unmatched coin with `coin[0]` (coinmarketcap.py:84), which raises IndexError for a coin with an empty name list; the model treats such a coin as one with no match.
- reddit.py is not part of this model: it is a network client whose counting depends on regular-expression semantics and live streams.
- AutoTrader/__init__.py is not part of this model: it dispatches to an adapter that is not shown.
- simulator/market.py cannot be imported as written: `from .. import ...` (line 1) goes beyond the top-level package, and `setup_logger` (line 3) is not defined. `Market.__init__` would also raise a TypeError at `database.DatabaseConnection()` (line 37), whose constructor requires a database name, user and password (database.py:14). `SimMarket.Market` models the market as its methods are evidently intended to work, with the database as a price parameter.
- Code that cannot run as written is not modelled:
  - `Market.setSimulator`, `sell_all` and `portfolio_value` lack `self` and read an undefined `d`;
  - `simulate()` calls `Trader` with the wrong arity;
  - `sell_by_symbol` subscripts a bound method and formats an undefined `total`.
  - `Simulation.Simulator.Run` records the market's `sell_all` as a call count and does not model its effect. As written, `self.market.sell_all(self.trader)` (simulator/__init__.py:40) raises TypeError once the loop ends, because `sell_all` lacks `self`; the single call after the loop is the evidently intended behaviour.
- BinanceAdapter.BuyBySymbol: the adapter module defines no `log`, so a total below the minimum notional raises `NameError` at the warning instead of returning False. Both paths submit nothing, so the model returns `Failure(BelowMinNotional)`.
- Division by zero is modelled as a failure value:
  - `BinanceAdapter.BuyBySymbol` returns `ZeroAsk` / `ZeroStepSize`;
  - `Policies.Allocate` returns `ZeroGrowthSum`.
- `get_funds`, `get_bid_ask_mean`, `get_highest_bid` and `get_lowest_ask` are single client lookups and are not modelled. The lowest ask is an input of `BuyBySymbol`.
- `get_metrics_for_subreddit`, `get_all_subreddits`, the table creation/insertion/dropping queries and `insert_data` are not modelled. They are SQL queries with no logic beyond `get_rows_for_subreddit`, which is modelled.
- Floating point is modelled as exact `real` arithmetic, so IEEE rounding is not captured. Python's float `%` is written with floor (`PyMod`).
- Text conversion of numbers (`float(...)` of JSON strings) is not modelled; numbers arrive parsed.
- `str.isalnum` and `str.lower` are modelled on ASCII only (`CoinMarketCap.IsAlnum`, `CoinMarketCap.Lower`). Unicode letters and digits are not covered.
- Datetimes are modelled as numbers of seconds:
  - the 23-hour trade window is 82800 seconds;
  - the conversion of `get_last_trade_date`'s result to a local datetime is not modelled.
- Ordering of equal keys in SQL is not modelled. Rows with equal end times come back in an order SQL does not fix, so `NextNewer`/`NextOlder` take the first in table order, and `SortByEndTimeDesc` is one valid order among those the query allows.
- Simulation.Simulator.constructor does not model the keyword defaults or the fields it does not use. `end_time=datetime.datetime.utcnow()` is evaluated once, when the class is defined, not per call. `time_delta` defaults to one hour and `market=None` to a fresh `Market()`, which cannot be built as written (see above). The `trader`, `market` and `verbose` fields are not modelled. The constructor takes the start time, end time and delta explicitly.
- Simulation.Simulator.Run requires a positive time delta when the run starts before the end time: with a zero or negative delta the source loop then never ends. Starting at or after the end, any delta is allowed and no step is taken, as in the source.
- SimMarket.Market.constructor and SimMarket.Trader.constructor do not model three things:
  - `Market.__init__`'s `coins=None` default, which reads the subreddit CSV named in the settings (simulator/market.py:31-32); the coin list is a parameter;
  - the market's `simulator` and `verbose` fields;
  - the trader's `market` field (simulator/market.py:20); the trader keeps only its funds.
- Policies.PlanConservesNetWorth is stated for distinct buy coins only. With two growth entries mapping to the same symbol, the spend dict collapses them and the sum is not the net worth.
- Policies.WashAdjustedConserves is stated for K distinct buy coins, for the same reason.
- The policy's outside answers are inputs:
  - the net worth, the owned coins valued in BTC and the minimum spend;
  - the subreddit-to-symbol lookup (`util.get_symbol_for_sub`) and the growth ranking (`query.average_growth`).
- The simulated market's price (`get_interpolated_price_data`) is a parameter of `Buy`/`Sell`.
- The trader's policy called by `simulation_step` is a recorded callback: its effects on the market are not modelled.

## Findings

| source | as written | input that shows it | evidently intended | confidence | as-written member | corrected member |
|---|---|---|---|---|---|---|
| database.py:170-173 | `weight_newer = (newer_t - t) / interval` multiplies the newer row, so each row is weighted by the distance to it | rows of one subreddit with mentions 0 at end time 0 and 10 at end time 10, timestamp 1: the result is 9 | linear interpolation from the docstring: each row weighted by the closeness to it, giving 1 | not executed | Database.InterpolatedCounterexample | Database.LinearCombinedIsLinear |
