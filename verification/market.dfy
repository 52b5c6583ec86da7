/** The simulated market (simulator/market.py): a trader's funds and the
    market's coin-to-balance ledger, changed in place by buys and sells. The
    interpolated price the source reads from the database is a parameter. */
module SimMarket {
  import opened Collections

  /** `InsufficientFundsException`, or the `KeyError` of indexing the portfolio
      with a coin it does not list. */
  datatype MarketError = InsufficientFunds | UnknownCoin

  /** A trader: its funds, which the market changes in place. */
  class Trader {
    var funds: real

    constructor(startFunds: real)
      ensures funds == startFunds
    {
      funds := startFunds;
    }
  }

  /** The coins a buy adds: `total * (1-self.fees) * current_price`. */
  function Bought(total: real, fees: real, price: real): real {
    total * (1.0 - fees) * price
  }

  /** The funds a sell credits: `(1-self.fees) * total * current_value`. */
  function Proceeds(amount: real, fees: real, price: real): real {
    (1.0 - fees) * amount * price
  }

  /** `n` zero balances. */
  function Zeros(n: nat): (zs: seq<real>)
    ensures |zs| == n && forall i :: 0 <= i < n ==> zs[i] == 0.0
  {
    seq(n, i => 0.0)
  }

  /** The entries of a portfolio with a positive balance, in portfolio order. */
  function OwnedOf(keys: seq<Key>, balances: map<Key, real>): (r: Dict<real>)
    requires forall k :: k in keys ==> k in balances
    ensures r.Valid()
    ensures forall k :: k in r.vals <==> k in keys && balances[k] > 0.0
    ensures forall k :: k in r.vals ==> r.vals[k] == balances[k]
  {
    if |keys| == 0 then Empty()
    else
      var c := keys[|keys| - 1];
      var init := OwnedOf(keys[..|keys| - 1], balances);
      assert forall k :: k in keys <==> k in keys[..|keys| - 1] || k == c;
      if balances[c] > 0.0 then Put(init, c, balances[c]) else init
  }

  /** A market that has just been opened owns nothing. */
  lemma OpenedMarketOwnsNothing(coins: seq<Key>)
    ensures OwnedOf(FromPairs(coins, Zeros(|coins|)).keys, FromPairs(coins, Zeros(|coins|)).vals).vals == map[]
  {
    var p := FromPairs(coins, Zeros(|coins|));
    FromPairsConstant(coins, Zeros(|coins|), 0.0);
    var o := OwnedOf(p.keys, p.vals);
    assert forall k :: k !in o.vals;
  }

  /** A buy of a positive total at a positive price, with fees below 100%, leaves
      the coin among the owned coins when its balance was not negative. */
  lemma OwnedAfterBuy(p: Dict<real>, coin: Key, total: real, fees: real, price: real)
    requires p.Valid() && coin in p.vals && p.vals[coin] >= 0.0
    requires total > 0.0 && fees < 1.0 && price > 0.0
    ensures var after := Put(p, coin, p.vals[coin] + Bought(total, fees, price));
            coin in OwnedOf(after.keys, after.vals).vals
  {
    var rest := 1.0 - fees;
    assert total * rest > 0.0;
    assert Bought(total, fees, price) == (total * rest) * price;
  }

  class Market {
    var fees: real
    var portfolio: Dict<real>

    ghost predicate Valid()
      reads this
    {
      portfolio.Valid()
    }

    /** `Market.__init__`: every listed coin starts at a zero balance. */
    constructor(coins: seq<Key>, fees: real)
      ensures Valid()
      ensures this.fees == fees
      ensures portfolio == FromPairs(coins, Zeros(|coins|))
      ensures forall c :: c in portfolio.vals <==> c in coins
      ensures forall c :: c in portfolio.vals ==> portfolio.vals[c] == 0.0
    {
      var p := Empty();
      ghost var zeros := Zeros(|coins|);
      for i := 0 to |coins|
        invariant p == FromPairs(coins[..i], zeros[..i])
      {
        FromPairsSnoc(coins, zeros, i, p, 0.0);
        p := Put(p, coins[i], 0.0);
      }
      FromPairsAll(coins, zeros, |coins|, p);
      FromPairsConstant(coins, zeros, 0.0);
      this.fees := fees;
      portfolio := p;
    }

    /** `buy`: refused when the trader's funds are below the total; otherwise the
        funds drop by the total and then the coin's balance rises by the coins
        bought. An unlisted coin raises only after the funds were taken. */
    method Buy(trader: Trader, coin: Key, total: real, price: real) returns (error: Option<MarketError>)
      requires Valid()
      modifies this, trader
      ensures Valid() && fees == old(fees)
      ensures old(trader.funds) < total ==>
                error == Some(InsufficientFunds) && trader.funds == old(trader.funds) && portfolio == old(portfolio)
      ensures old(trader.funds) >= total && coin !in old(portfolio.vals) ==>
                error == Some(UnknownCoin) && trader.funds == old(trader.funds) - total && portfolio == old(portfolio)
      ensures old(trader.funds) >= total && coin in old(portfolio.vals) ==>
                error == None && trader.funds == old(trader.funds) - total
                && portfolio == Put(old(portfolio), coin, old(portfolio.vals[coin]) + Bought(total, fees, price))
      ensures error != Some(InsufficientFunds) ==> trader.funds >= 0.0 || old(trader.funds) < 0.0
    {
      if trader.funds < total {
        return Some(InsufficientFunds);
      }
      trader.funds := trader.funds - total;
      var bought := Bought(total, fees, price);
      if coin !in portfolio.vals {
        return Some(UnknownCoin);
      }
      portfolio := Put(portfolio, coin, portfolio.vals[coin] + bought);
      return None;
    }

    /** `sell`: with no total the whole balance is sold; a balance below the total
        or a zero total is refused. The trader is credited the proceeds and the
        balance is left as it was. */
    method Sell(trader: Trader, coin: Key, total: Option<real>, price: real) returns (error: Option<MarketError>)
      requires Valid()
      modifies trader
      ensures coin !in portfolio.vals ==> error == Some(UnknownCoin) && trader.funds == old(trader.funds)
      ensures coin in portfolio.vals ==>
                var amount := if total.None? then portfolio.vals[coin] else total.value;
                if portfolio.vals[coin] < amount || amount == 0.0
                then error == Some(InsufficientFunds) && trader.funds == old(trader.funds)
                else error == None && trader.funds == old(trader.funds) + Proceeds(amount, fees, price)
    {
      if coin !in portfolio.vals {
        return Some(UnknownCoin);
      }
      var amount := if total.None? then portfolio.vals[coin] else total.value;
      if portfolio.vals[coin] < amount || amount == 0.0 {
        return Some(InsufficientFunds);
      }
      trader.funds := trader.funds + Proceeds(amount, fees, price);
      return None;
    }

    /** `owned_coins`: the entries with a positive balance. */
    method OwnedCoins() returns (owned: Dict<real>)
      requires Valid()
      ensures owned == OwnedOf(portfolio.keys, portfolio.vals)
    {
      owned := Empty();
      var keys := portfolio.keys;
      for i := 0 to |keys|
        invariant owned == OwnedOf(keys[..i], portfolio.vals)
      {
        assert keys[..i + 1][..i] == keys[..i];
        var balance := portfolio.vals[keys[i]];
        if balance > 0.0 {
          owned := Put(owned, keys[i], balance);
        }
      }
      assert keys[..|keys|] == keys;
    }

    /** `current_balance`: the coin's balance, or the `KeyError` of an unlisted coin. */
    function CurrentBalance(coin: Key): (r: Result<real, MarketError>)
      reads this
      ensures r.Failure? <==> coin !in portfolio.vals
      ensures r.Success? ==> r.value == portfolio.vals[coin]
    {
      if coin in portfolio.vals then Success(portfolio.vals[coin]) else Failure(UnknownCoin)
    }
  }
}
