/** The exchange-side arithmetic of the Binance adapter
    (AutoTrader/binance_adapter.py). The client's answers (account balances,
    ticker prices, order-book asks, symbol filters, trade lists) are inputs; the
    adapter's trading "mode" is the quote currency every pair is priced in. */
module BinanceAdapter {
  import opened Collections

  /** One entry of the account's `balances` list: an asset and its free amount. */
  datatype Balance = Balance(asset: Key, free: real)

  /** One entry of `get_all_tickers()`: a pair name and its last price. */
  datatype Ticker = Ticker(symbol: Key, price: real)

  /** The order `buy_by_symbol` submits: a market buy of `quantity` on `pair`. */
  datatype MarketOrder = MarketBuy(pair: Key, quantity: real)

  /** Why `buy_by_symbol` submits nothing. A zero ask or a zero step size is a
      `ZeroDivisionError`; a total below the minimum notional reaches the
      warning, which raises `NameError` as no `log` is defined in the module. */
  datatype BuyError = ZeroAsk | BelowMinNotional | ZeroStepSize

  /** `max([])` on a coin with no trades raises `ValueError`. */
  datatype TradeDateError = NoTrades(pair: Key)

  /** The trading pair of a coin against the mode: `"{}{}".format(symbol, mode)`. */
  function PairName(symbol: Key, mode: Key): (pair: Key)
    ensures |pair| == |symbol| + |mode|
    ensures pair[..|symbol|] == symbol && pair[|symbol|..] == mode
  {
    symbol + mode
  }

  /** Against one mode, different coins trade on different pairs. */
  lemma PairNameInjective(a: Key, b: Key, mode: Key)
    requires PairName(a, mode) == PairName(b, mode)
    ensures a == b
  {
    assert |a| == |b|;
    assert a == PairName(a, mode)[..|a|];
    assert b == PairName(b, mode)[..|b|];
  }

  // ---------------------------------------------------------------------------
  // get_portfolio

  /** The portfolio `get_portfolio` builds: every asset with a positive free
      amount, assigned in balance-list order. */
  function PortfolioOf(balances: seq<Balance>): (p: Dict<real>)
    ensures p.Valid()
    ensures forall k :: k in p.vals ==> p.vals[k] > 0.0
  {
    if |balances| == 0 then Empty()
    else
      var init := balances[..|balances| - 1];
      var b := balances[|balances| - 1];
      if b.free > 0.0 then Put(PortfolioOf(init), b.asset, b.free) else PortfolioOf(init)
  }

  /** The portfolio holds exactly the assets with some positive free amount. */
  lemma {:induction false} PortfolioMembers(balances: seq<Balance>)
    ensures forall k :: k in PortfolioOf(balances).vals <==>
              exists i :: 0 <= i < |balances| && balances[i].asset == k && balances[i].free > 0.0
  {
    if |balances| > 0 {
      var init := balances[..|balances| - 1];
      PortfolioMembers(init);
      assert forall i :: 0 <= i < |init| ==> init[i] == balances[i];
    }
  }

  /** The portfolio's values after one more balance entry. */
  lemma PortfolioOfSnoc(balances: seq<Balance>)
    requires |balances| > 0
    ensures var b := balances[|balances| - 1];
            var before := PortfolioOf(balances[..|balances| - 1]).vals;
            PortfolioOf(balances).vals == if b.free > 0.0 then before[b.asset := b.free] else before
  {
  }

  /** An asset's amount is the free amount of its last positive balance entry. */
  lemma {:induction false} PortfolioLastPositive(balances: seq<Balance>, i: nat)
    requires i < |balances| && balances[i].free > 0.0
    requires forall j :: i < j < |balances| && balances[j].asset == balances[i].asset ==> balances[j].free <= 0.0
    ensures balances[i].asset in PortfolioOf(balances).vals
    ensures PortfolioOf(balances).vals[balances[i].asset] == balances[i].free
  {
    var n := |balances| - 1;
    PortfolioOfSnoc(balances);
    if i < n {
      var init := balances[..n];
      assert init[i] == balances[i];
      PortfolioLastPositive(init, i);
      assert balances[n].free > 0.0 ==> balances[n].asset != balances[i].asset;
    }
  }

  method GetPortfolio(balances: seq<Balance>) returns (portfolio: Dict<real>)
    ensures portfolio == PortfolioOf(balances)
  {
    portfolio := Empty();
    for i := 0 to |balances|
      invariant portfolio == PortfolioOf(balances[..i])
    {
      assert balances[..i + 1][..i] == balances[..i];
      if balances[i].free > 0.0 {
        portfolio := Put(portfolio, balances[i].asset, balances[i].free);
      }
    }
    assert balances[..|balances|] == balances;
  }

  // ---------------------------------------------------------------------------
  // get_portfolio_funds_value and get_net_worth

  /** The price of the last ticker named `pair`: the ticker loop has no `break`,
      so a later match overwrites an earlier one. */
  function LastPrice(tickers: seq<Ticker>, pair: Key): (r: Option<real>)
    ensures r.None? <==> forall i :: 0 <= i < |tickers| ==> tickers[i].symbol != pair
    ensures r.Some? ==> exists i :: 0 <= i < |tickers| && tickers[i].symbol == pair && tickers[i].price == r.value
  {
    if |tickers| == 0 then None
    else if tickers[|tickers| - 1].symbol == pair then Some(tickers[|tickers| - 1].price)
    else
      assert forall i :: 0 <= i < |tickers| - 1 ==> tickers[..|tickers| - 1][i] == tickers[i];
      LastPrice(tickers[..|tickers| - 1], pair)
  }

  /** No ticker after the one `LastPrice` reports is named `pair`. */
  lemma {:induction false} LastPriceIsLast(tickers: seq<Ticker>, pair: Key, i: nat)
    requires i < |tickers| && tickers[i].symbol == pair
    requires forall j :: i < j < |tickers| ==> tickers[j].symbol != pair
    ensures LastPrice(tickers, pair) == Some(tickers[i].price)
  {
    if i < |tickers| - 1 {
      LastPriceIsLast(tickers[..|tickers| - 1], pair, i);
    }
  }

  /** A holding's value in the mode: `amount * float(ticker["price"])`. */
  function Valued(amount: real, price: real): real {
    amount * price
  }

  /** The valuation `get_portfolio_funds_value` builds over the portfolio's coins
      `coins`: the mode's own amount is copied, every other coin is valued at the
      price of the last ticker of its pair, and a coin without a ticker is left out. */
  function FundsValueOf(coins: seq<Key>, portfolio: map<Key, real>, tickers: seq<Ticker>, mode: Key): (r: Dict<real>)
    requires forall k :: k in coins ==> k in portfolio
    ensures r.Valid()
    ensures forall k :: k in r.vals <==>
              k in coins && (k == mode || LastPrice(tickers, PairName(k, mode)).Some?)
    ensures forall k :: k in r.vals ==>
              r.vals[k] == if k == mode then portfolio[k]
                           else Valued(portfolio[k], LastPrice(tickers, PairName(k, mode)).value)
  {
    if |coins| == 0 then Empty()
    else
      var init := FundsValueOf(coins[..|coins| - 1], portfolio, tickers, mode);
      var c := coins[|coins| - 1];
      assert forall k :: k in coins <==> k in coins[..|coins| - 1] || k == c;
      if c == mode then Put(init, c, portfolio[c])
      else
        match LastPrice(tickers, PairName(c, mode))
        case None => init
        case Some(price) => Put(init, c, Valued(portfolio[c], price))
  }

  /** The funds once the coin has been valued at `price`, if any. */
  function ValuedAt(funds0: Dict<real>, coin: Key, amount: real, price: Option<real>): (r: Dict<real>)
    requires funds0.Valid()
    ensures r.Valid()
  {
    match price
    case None => funds0
    case Some(p) => Put(funds0, coin, Valued(amount, p))
  }

  /** One more ticker: a ticker of the pair replaces the price, any other keeps it. */
  lemma LastPriceSnoc(tickers: seq<Ticker>, pair: Key, j: nat)
    requires j < |tickers|
    ensures LastPrice(tickers[..j + 1], pair)
            == if tickers[j].symbol == pair then Some(tickers[j].price) else LastPrice(tickers[..j], pair)
  {
    assert tickers[..j + 1][..j] == tickers[..j];
  }

  /** The ticker loop for one coin: every ticker of the coin's pair assigns the
      coin its value at that ticker's price. */
  method ValueAtTickers(funds0: Dict<real>, coin: Key, amount: real, tickers: seq<Ticker>, pair: Key)
    returns (funds: Dict<real>)
    requires funds0.Valid()
    ensures funds == ValuedAt(funds0, coin, amount, LastPrice(tickers, pair))
  {
    funds := funds0;
    for j := 0 to |tickers|
      invariant funds == ValuedAt(funds0, coin, amount, LastPrice(tickers[..j], pair))
    {
      LastPriceSnoc(tickers, pair, j);
      if tickers[j].symbol == pair {
        var previous := LastPrice(tickers[..j], pair);
        if previous.Some? {
          PutTwice(funds0, coin, Valued(amount, previous.value), Valued(amount, tickers[j].price));
        }
        funds := Put(funds, coin, Valued(amount, tickers[j].price));
      }
    }
    assert tickers[..|tickers|] == tickers;
  }

  /** `get_portfolio_funds_value`, over the portfolio `get_portfolio` returned. */
  method GetPortfolioFundsValue(portfolio: Dict<real>, tickers: seq<Ticker>, mode: Key) returns (funds: Dict<real>)
    requires portfolio.Valid()
    ensures funds == FundsValueOf(portfolio.keys, portfolio.vals, tickers, mode)
  {
    funds := Empty();
    var coins := portfolio.keys;
    for i := 0 to |coins|
      invariant funds == FundsValueOf(coins[..i], portfolio.vals, tickers, mode)
    {
      var coin := coins[i];
      assert coins[..i + 1][..i] == coins[..i];
      var amount := portfolio.vals[coin];
      if coin == mode {
        funds := Put(funds, coin, amount);
      } else {
        funds := ValueAtTickers(funds, coin, amount, tickers, PairName(coin, mode));
      }
    }
    assert coins[..|coins|] == coins;
  }

  /** `get_net_worth`: the sum of the valuation of the positive balances; with
      no negative ticker price it is not negative. */
  function NetWorth(balances: seq<Balance>, tickers: seq<Ticker>, mode: Key): (w: real)
    ensures (forall i :: 0 <= i < |tickers| ==> tickers[i].price >= 0.0) ==> w >= 0.0
  {
    var p := PortfolioOf(balances);
    var w := SumValues(FundsValueOf(p.keys, p.vals, tickers, mode));
    // The branch only brings the lemma, which needs non-negative prices, into scope.
    if forall i :: 0 <= i < |tickers| ==> tickers[i].price >= 0.0 then
      ValuationNonnegative(balances, tickers, mode);
      w
    else
      w
  }

  lemma ValuedNonnegative(amount: real, price: real)
    requires amount >= 0.0 && price >= 0.0
    ensures Valued(amount, price) >= 0.0
  {
  }

  lemma {:induction false} SumOverNonnegative(ks: seq<Key>, m: map<Key, real>)
    requires forall k :: k in ks ==> k in m && m[k] >= 0.0
    ensures SumOver(ks, m) >= 0.0
  {
    if |ks| > 0 {
      SumOverNonnegative(ks[..|ks| - 1], m);
    }
  }

  /** With no negative ticker price the valuation sums to a non-negative amount. */
  lemma ValuationNonnegative(balances: seq<Balance>, tickers: seq<Ticker>, mode: Key)
    requires forall i :: 0 <= i < |tickers| ==> tickers[i].price >= 0.0
    ensures var p := PortfolioOf(balances);
            SumValues(FundsValueOf(p.keys, p.vals, tickers, mode)) >= 0.0
  {
    var p := PortfolioOf(balances);
    var f := FundsValueOf(p.keys, p.vals, tickers, mode);
    forall k | k in f.keys
      ensures f.vals[k] >= 0.0
    {
      if k != mode {
        var price := LastPrice(tickers, PairName(k, mode)).value;
        ValuedNonnegative(p.vals[k], price);
      }
    }
    SumOverNonnegative(f.keys, f.vals);
  }

  // ---------------------------------------------------------------------------
  // buy_by_symbol

  /** Python's float `%`: `x - y * floor(x / y)`, which takes the sign of `y`. */
  function PyMod(x: real, y: real): (r: real)
    requires y != 0.0
    ensures y > 0.0 ==> 0.0 <= r < y
    ensures y < 0.0 ==> y < r <= 0.0
    ensures ((x - r) / y).Floor as real == (x - r) / y
  {
    var f := (x / y).Floor as real;
    PyModBounds(x, y, f, x - y * f);
    x - y * f
  }

  /** The remainder `x - y * floor(x / y)` has the sign of `y`, is smaller than
      `y` in size, and leaves a whole multiple of `y`. */
  lemma PyModBounds(x: real, y: real, f: real, r: real)
    requires y != 0.0 && f == (x / y).Floor as real && r == x - y * f
    ensures y > 0.0 ==> 0.0 <= r < y
    ensures y < 0.0 ==> y < r <= 0.0
    ensures ((x - r) / y).Floor as real == (x - r) / y
  {
    var q := x / y;
    assert q * y == x;
    assert f <= q < f + 1.0;
    if y > 0.0 {
      ScaleBounds(f, q, x, y);
    } else {
      ScaleBoundsNegative(f, q, x, y);
    }
    assert x - r == y * f;
    assert (y * f) / y == f;
    assert f.Floor as real == f;
  }

  /** `qty - (qty % step_size)`. */
  function RoundDownToStep(q: real, step: real): (r: real)
    requires step != 0.0
    ensures step > 0.0 ==> r <= q < r + step
    ensures step < 0.0 ==> q <= r < q - step
  {
    q - PyMod(q, step)
  }

  /** The check and rounding of `buy_by_symbol`: the quantity `total / ask` is
      computed first, then a total below the minimum notional is refused, then the
      quantity is rounded down to the step size. Submitting the order is left out. */
  function BuyBySymbol(symbol: Key, mode: Key, total: real, ask: real, minNotional: real, stepSize: real)
    : (r: Result<MarketOrder, BuyError>)
    ensures r.Success? <==> ask != 0.0 && total >= minNotional && stepSize != 0.0
    ensures r.Success? ==> r.value.pair == PairName(symbol, mode)
    ensures ask != 0.0 && total < minNotional ==> r == Failure(BelowMinNotional)
  {
    if ask == 0.0 then Failure(ZeroAsk)
    else
      var qty := total / ask;
      if total < minNotional then Failure(BelowMinNotional)
      else if stepSize == 0.0 then Failure(ZeroStepSize)
      else Success(MarketBuy(PairName(symbol, mode), RoundDownToStep(qty, stepSize)))
  }

  /** Rounding down to a positive step: the result is a whole number of steps, at
      most `q`, less than one step below it, and not negative when `q` is not. */
  lemma RoundDownBounds(q: real, step: real)
    requires step > 0.0
    ensures RoundDownToStep(q, step) <= q < RoundDownToStep(q, step) + step
    ensures q >= 0.0 ==> RoundDownToStep(q, step) >= 0.0
    ensures (RoundDownToStep(q, step) / step).Floor as real == RoundDownToStep(q, step) / step
  {
    var x := q / step;
    var f := x.Floor as real;
    assert f <= x < f + 1.0;
    var r := RoundDownToStep(q, step);
    assert r == f * step;
    assert x * step == q;
    ScaleBounds(f, x, q, step);
    assert r / step == f;
    assert f.Floor as real == f;
    assert q >= 0.0 ==> f >= 0.0;
    assert f >= 0.0 ==> r >= 0.0;
  }

  /** Multiplying `f <= x < f + 1` through by a positive `step`, where `x * step == q`. */
  lemma ScaleBounds(f: real, x: real, q: real, step: real)
    requires step > 0.0 && f <= x < f + 1.0 && x * step == q
    ensures f * step <= q < f * step + step
  {
    var fs, xs := f * step, x * step;
    var below, above := x - f, f + 1.0 - x;
    assert below * step >= 0.0;
    assert below * step == xs - fs;
    assert fs <= q;
    assert above * step > 0.0;
    assert above * step == fs + step - xs;
    assert q < fs + step;
  }

  /** Multiplying `f <= x < f + 1` through by a negative `step`, where `x * step == q`. */
  lemma ScaleBoundsNegative(f: real, x: real, q: real, step: real)
    requires step < 0.0 && f <= x < f + 1.0 && x * step == q
    ensures f * step + step < q <= f * step
  {
    var fs, xs := f * step, x * step;
    var below, above := x - f, f + 1.0 - x;
    assert below * step <= 0.0;
    assert below * step == xs - fs;
    assert q <= fs;
    assert above * step < 0.0;
    assert above * step == fs + step - xs;
    assert fs + step < q;
  }

  /** A submitted buy orders a whole number of steps, at most `total / ask`, and
      less than one step below it. */
  lemma BuyQuantity(symbol: Key, mode: Key, total: real, ask: real, minNotional: real, stepSize: real)
    requires stepSize > 0.0
    requires BuyBySymbol(symbol, mode, total, ask, minNotional, stepSize).Success?
    ensures var q := BuyBySymbol(symbol, mode, total, ask, minNotional, stepSize).value.quantity;
            q <= total / ask < q + stepSize
            && (total / ask >= 0.0 ==> q >= 0.0)
            && (q / stepSize).Floor as real == q / stepSize
  {
    RoundDownBounds(total / ask, stepSize);
  }

  // ---------------------------------------------------------------------------
  // get_last_trade_date

  /** Python's `max` of a non-empty list. */
  function MaxOf(xs: seq<real>): (m: real)
    requires |xs| > 0
    ensures m in xs && forall x :: x in xs ==> x <= m
  {
    if |xs| == 1 then xs[0]
    else
      var m0 := MaxOf(xs[..|xs| - 1]);
      assert forall x :: x in xs ==> x in xs[..|xs| - 1] || x == xs[|xs| - 1];
      if xs[|xs| - 1] > m0 then xs[|xs| - 1] else m0
  }

  /** The latest trade time, in milliseconds, over the owned coins other than the
      mode, starting from 0; the first owned coin without trades fails. */
  function LatestTradeMs(coins: seq<Key>, mode: Key, tradesFor: Key -> seq<real>): (r: Result<real, TradeDateError>)
    ensures r.Success? <==>
              forall i :: 0 <= i < |coins| && coins[i] != mode ==> |tradesFor(PairName(coins[i], mode))| > 0
    ensures r.Success? ==> r.value >= 0.0
    ensures r.Success? ==>
              forall i, x :: 0 <= i < |coins| && coins[i] != mode && x in tradesFor(PairName(coins[i], mode)) ==> x <= r.value
    ensures r.Success? && r.value != 0.0 ==>
              exists i :: 0 <= i < |coins| && coins[i] != mode && r.value in tradesFor(PairName(coins[i], mode))
  {
    if |coins| == 0 then Success(0.0)
    else
      var init := coins[..|coins| - 1];
      var c := coins[|coins| - 1];
      assert forall i :: 0 <= i < |init| ==> init[i] == coins[i];
      match LatestTradeMs(init, mode, tradesFor)
      case Failure(e) => Failure(e)
      case Success(t) =>
        if c == mode then Success(t)
        else
          var trades := tradesFor(PairName(c, mode));
          if |trades| == 0 then Failure(NoTrades(PairName(c, mode)))
          else
            var maxTs := MaxOf(trades);
            Success(if maxTs >= t then maxTs else t)
  }

  /** Once a prefix of the coins fails, the whole fails with the same error. */
  lemma {:induction false} LatestTradeMsFailurePersists(coins: seq<Key>, mode: Key, tradesFor: Key -> seq<real>, i: nat)
    requires i <= |coins| && LatestTradeMs(coins[..i], mode, tradesFor).Failure?
    ensures LatestTradeMs(coins, mode, tradesFor) == LatestTradeMs(coins[..i], mode, tradesFor)
  {
    if i < |coins| {
      var n := |coins| - 1;
      assert coins[..n][..i] == coins[..i];
      LatestTradeMsFailurePersists(coins[..n], mode, tradesFor, i);
    } else {
      assert coins[..i] == coins;
    }
  }

  /** One more coin: the coin is skipped if it is the mode, fails without trades,
      and otherwise raises the latest time to its own latest trade. */
  lemma LatestTradeMsSnoc(coins: seq<Key>, mode: Key, tradesFor: Key -> seq<real>, i: nat)
    requires i < |coins| && LatestTradeMs(coins[..i], mode, tradesFor).Success?
    ensures var t := LatestTradeMs(coins[..i], mode, tradesFor).value;
            var trades := tradesFor(PairName(coins[i], mode));
            LatestTradeMs(coins[..i + 1], mode, tradesFor)
            == if coins[i] == mode then Success(t)
               else if |trades| == 0 then Failure(NoTrades(PairName(coins[i], mode)))
               else Success(if MaxOf(trades) >= t then MaxOf(trades) else t)
  {
    assert coins[..i + 1][..i] == coins[..i];
  }

  /** `get_last_trade_date` over the portfolio's coins; the result is in seconds
      (the conversion to a local datetime is left out). */
  method GetLastTradeDate(portfolio: Dict<real>, mode: Key, tradesFor: Key -> seq<real>)
    returns (r: Result<real, TradeDateError>)
    ensures r == match LatestTradeMs(portfolio.keys, mode, tradesFor)
                 case Failure(e) => Failure(e)
                 case Success(t) => Success(t / 1000.0)
  {
    var coins := portfolio.keys;
    var latest := 0.0;
    for i := 0 to |coins|
      invariant LatestTradeMs(coins[..i], mode, tradesFor) == Success(latest)
    {
      var coin := coins[i];
      LatestTradeMsSnoc(coins, mode, tradesFor, i);
      if coin != mode {
        var pair := PairName(coin, mode);
        var trades := tradesFor(pair);
        if |trades| == 0 {
          LatestTradeMsFailurePersists(coins, mode, tradesFor, i + 1);
          return Failure(NoTrades(pair));
        }
        var maxTs := MaxOf(trades);
        latest := if maxTs >= latest then maxTs else latest;
      }
    }
    assert coins[..|coins|] == coins;
    return Success(latest / 1000.0);
  }
}
