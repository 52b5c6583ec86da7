/** The rebalancing policy of the automated trader (AutoTrader/policies.py):
    from a top-K growth ranking and the owned coins it plans which coins to
    sell and how much of the net worth to spend on each coin to buy, and the
    orchestrator issues that plan as orders. The adapter's answers (net worth,
    owned coins valued in BTC, minimum spend) and the subreddit-to-symbol lookup
    are inputs. */
module Policies {
  import opened Collections

  type Coin = Key

  /** Number of coins the policy wants to hold. */
  const K: nat := 4

  /** The base currency: it is never put on the sell list. */
  const BaseCoin: Coin := "BTC"

  /** Minimum age of the last trade before the policy trades again: 23 hours, in seconds. */
  const TradeWindow: real := 23.0 * 3600.0

  /** The part of a wash-trade coin's owned value given to each other buy coin:
      `1./(K-1) * available`, that is a third for K = 4. */
  function ShareOf(available: real): real {
    available / 3.0
  }

  /** One entry of the growth ranking: a subreddit and its average growth. */
  datatype Growth = Growth(sub: string, growth: real)

  /** The coins to sell (in owned order) and the amount to spend on each coin to buy. */
  datatype Plan = Plan(sell: seq<Coin>, spend: Dict<real>)

  /** `assert len(growths) == K` fails, or the scaled split divides by a zero growth sum. */
  datatype PlanError = GrowthCountNotK | ZeroGrowthSum

  /** An order issued to the adapter: `sell_all(coin)` or `buy_by_symbol(coin, amount)`. */
  datatype Order = SellAll(coin: Coin) | Buy(coin: Coin, amount: real)

  // ---------------------------------------------------------------------------
  // Specification functions

  /** The coins to buy: the symbol of each ranked subreddit, in ranking order. */
  function BuyCoins(growths: seq<Growth>, symbolFor: string -> Coin): (buy: seq<Coin>)
    ensures |buy| == |growths|
    ensures forall i :: 0 <= i < |growths| ==> buy[i] == symbolFor(growths[i].sub)
  {
    seq(|growths|, i requires 0 <= i < |growths| => symbolFor(growths[i].sub))
  }

  function Scores(growths: seq<Growth>): (gs: seq<real>)
    ensures |gs| == |growths|
    ensures forall i :: 0 <= i < |growths| ==> gs[i] == growths[i].growth
  {
    seq(|growths|, i requires 0 <= i < |growths| => growths[i].growth)
  }

  /** The growths after smoothing: when the K-th growth is negative every growth
      is raised by `-g[K-1] + 1`. */
  function Shifted(gs: seq<real>): (s: seq<real>)
    requires |gs| == K
    ensures |s| == K
  {
    if gs[K - 1] < 0.0 then seq(K, i requires 0 <= i < K => gs[i] + (-gs[K - 1] + 1.0)) else gs
  }

  function EqualSplit(netWorth: real): (amounts: seq<real>)
    ensures |amounts| == K
    ensures forall i :: 0 <= i < K ==> amounts[i] == netWorth / K as real
  {
    seq(K, i => netWorth / K as real)
  }

  /** `(growth / growths_sum) * net_worth`: a coin's part of the net worth under scaling. */
  function Portion(growth: real, total: real, netWorth: real): real
    requires total != 0.0
  {
    (growth / total) * netWorth
  }

  function Proportional(s: seq<real>, total: real, netWorth: real): (amounts: seq<real>)
    requires |s| == K && total != 0.0
    ensures |amounts| == K
    ensures forall i :: 0 <= i < K ==> amounts[i] == Portion(s[i], total, netWorth)
  {
    seq(K, i requires 0 <= i < K => Portion(s[i], total, netWorth))
  }

  /** The spend map before wash-trade avoidance. */
  function BaseSpend(buy: seq<Coin>, gs: seq<real>, netWorth: real, scale: bool): (r: Result<Dict<real>, PlanError>)
    requires |buy| == K && |gs| == K
    ensures r.Success? ==> r.value.Valid() && r.value.keys == Dedup(buy)
    ensures r.Success? ==> forall c :: c in r.value.vals <==> c in buy
  {
    if scale then
      var s := Shifted(gs);
      var total := SeqSum(s);
      if total == 0.0 then Failure(ZeroGrowthSum) else Success(FromPairs(buy, Proportional(s, total, netWorth)))
    else
      Success(FromPairs(buy, EqualSplit(netWorth)))
  }

  /** `sum(owned[k] for k in ks if k in sold)`. */
  function Kept(ks: seq<Coin>, sold: seq<Coin>, owned: map<Coin, real>): real
    requires forall k :: k in sold ==> k in owned
  {
    if |ks| == 0 then 0.0
    else Kept(ks[..|ks| - 1], sold, owned) + (if ks[|ks| - 1] in sold then owned[ks[|ks| - 1]] else 0.0)
  }

  /** What one occurrence of coin `c` among the buy coins receives once the
      wash-trade loop has visited the spend keys `ks`: a share of the owned value
      of every visited coin, other than `c`, that was on the sell list. */
  function Redistributed(ks: seq<Coin>, sold: seq<Coin>, owned: map<Coin, real>, c: Coin): real
    requires forall k :: k in sold ==> k in owned
  {
    if |ks| == 0 then 0.0
    else
      var last := ks[|ks| - 1];
      Redistributed(ks[..|ks| - 1], sold, owned, c) + (if last in sold && last != c then ShareOf(owned[last]) else 0.0)
  }

  /** The spend map after wash-trade avoidance, in closed form: a coin that was
      also on the sell list spends its owned value less, and each occurrence of a
      coin among the buy coins gets a share of every other such coin's owned value. */
  function WashAdjusted(spend0: Dict<real>, buy: seq<Coin>, sold: seq<Coin>, owned: map<Coin, real>): (m: map<Coin, real>)
    requires spend0.Valid()
    requires forall k :: k in sold ==> k in owned
    ensures m.Keys == spend0.vals.Keys
  {
    map c | c in spend0.vals ::
      spend0.vals[c] - (if c in sold then owned[c] else 0.0)
      + Times(Count(buy, c), Redistributed(spend0.keys, sold, owned, c))
  }

  /** The coins smaller than the minimum spend among those on the sell list. */
  function SmallSells(sell: seq<Coin>, owned: map<Coin, real>, minSpend: real): set<Coin>
  {
    set c | c in sell && c in owned && owned[c] < minSpend
  }

  /** The plan `__sell_and_spendings__` returns. */
  function ExpectedPlan(netWorth: real, growths: seq<Growth>, symbolFor: string -> Coin,
                        owned0: Dict<real>, scale: bool): (r: Result<Plan, PlanError>)
    requires owned0.Valid()
    ensures |growths| != K <==> r == Failure(GrowthCountNotK)
    ensures r.Success? ==> r.value.spend.Valid() && r.value.spend.keys == Dedup(BuyCoins(growths, symbolFor))
    ensures r.Success? ==> Distinct(r.value.sell)
    ensures r.Success? ==> forall c :: c in r.value.sell <==>
              c in owned0.vals && c != BaseCoin && c !in BuyCoins(growths, symbolFor)
    ensures r.Success? ==> forall c :: c in r.value.sell ==> c !in r.value.spend.vals
  {
    if |growths| != K then Failure(GrowthCountNotK)
    else
      var buy := BuyCoins(growths, symbolFor);
      var owned := Pop(owned0, BaseCoin);
      match BaseSpend(buy, Scores(growths), netWorth, scale)
      case Failure(e) => Failure(e)
      case Success(base) =>
        Success(Plan(Exclude(owned.keys, base.vals.Keys),
                     Dict(base.keys, WashAdjusted(base, buy, owned.keys, owned.vals))))
  }

  /** The orders the policy issues for a plan: every sell, then every buy. */
  function Orders(p: Plan): (o: seq<Order>)
    requires p.spend.Valid()
    ensures |o| == |p.sell| + |p.spend.keys|
    ensures forall i :: 0 <= i < |p.sell| ==> o[i] == SellAll(p.sell[i])
    ensures forall j :: 0 <= j < |p.spend.keys| ==>
              o[|p.sell| + j] == Buy(p.spend.keys[j], p.spend.vals[p.spend.keys[j]])
  {
    seq(|p.sell|, i requires 0 <= i < |p.sell| => SellAll(p.sell[i]))
    + seq(|p.spend.keys|, j requires 0 <= j < |p.spend.keys| => Buy(p.spend.keys[j], p.spend.vals[p.spend.keys[j]]))
  }

  /** The ranking the policy hands to the planner: `average_growth` sorted, reversed, first K. */
  function TopK(ranked: seq<Growth>): (top: seq<Growth>)
    ensures |top| == if |ranked| < K then |ranked| else K
    ensures forall i :: 0 <= i < |top| ==> top[i] == ranked[|ranked| - 1 - i]
  {
    var n := if |ranked| < K then |ranked| else K;
    seq(n, i requires 0 <= i < n => ranked[|ranked| - 1 - i])
  }

  // ---------------------------------------------------------------------------
  // The policy's loops

  /** `for i in range(K): growths[i][1] += -growths[K-1][1] + 1`, under the
      negativity test; `growths[K-1]` is read afresh in every round. */
  method ShiftGrowths(gs: seq<real>) returns (s: seq<real>)
    requires |gs| == K
    ensures s == Shifted(gs)
  {
    s := gs;
    if s[K - 1] < 0.0 {
      for i := 0 to K
        invariant |s| == K
        invariant forall j :: 0 <= j < i ==> s[j] == gs[j] + (-gs[K - 1] + 1.0)
        invariant forall j :: i <= j < K ==> s[j] == gs[j]
      {
        s := s[i := s[i] + (-s[K - 1] + 1.0)];
      }
    }
  }

  /** `for i, coin in enumerate(buy_coins): spend[coin] = (growths[i][1]/growths_sum) * net_worth`. */
  method SplitProportionally(buy: seq<Coin>, s: seq<real>, total: real, netWorth: real) returns (spend: Dict<real>)
    requires |buy| == K && |s| == K && total != 0.0
    ensures spend == FromPairs(buy, Proportional(s, total, netWorth))
  {
    ghost var amounts := Proportional(s, total, netWorth);
    spend := Empty();
    for i := 0 to K
      invariant spend == FromPairs(buy[..i], amounts[..i])
    {
      FromPairsSnoc(buy, amounts, i, spend, Portion(s[i], total, netWorth));
      spend := Put(spend, buy[i], Portion(s[i], total, netWorth));
    }
    FromPairsAll(buy, amounts, K, spend);
  }

  /** `for coin in buy_coins: spend[coin] = net_worth / K`. */
  method SplitEqually(buy: seq<Coin>, netWorth: real) returns (spend: Dict<real>)
    requires |buy| == K
    ensures spend == FromPairs(buy, EqualSplit(netWorth))
  {
    ghost var amounts := EqualSplit(netWorth);
    spend := Empty();
    for i := 0 to K
      invariant spend == FromPairs(buy[..i], amounts[..i])
    {
      FromPairsSnoc(buy, amounts, i, spend, netWorth / K as real);
      spend := Put(spend, buy[i], netWorth / K as real);
    }
    FromPairsAll(buy, amounts, K, spend);
  }

  /** Fills `spend` for every buy coin: the scaled split or the equal split. */
  method Allocate(buy: seq<Coin>, gs: seq<real>, netWorth: real, scale: bool) returns (r: Result<Dict<real>, PlanError>)
    requires |buy| == K && |gs| == K
    ensures r == BaseSpend(buy, gs, netWorth, scale)
  {
    if scale {
      var s := ShiftGrowths(gs);
      var total := SeqSum(s);
      if total == 0.0 {
        return Failure(ZeroGrowthSum);
      }
      var spend := SplitProportionally(buy, s, total, netWorth);
      return Success(spend);
    } else {
      var spend := SplitEqually(buy, netWorth);
      return Success(spend);
    }
  }

  /** The spend values once the wash-trade loop has visited the spend keys `ks`. */
  ghost function WashedUpTo(spend0: Dict<real>, buy: seq<Coin>, sold: seq<Coin>, owned: map<Coin, real>, ks: seq<Coin>): map<Coin, real>
    requires spend0.Valid()
    requires forall k :: k in sold ==> k in owned
  {
    map c | c in spend0.vals ::
      spend0.vals[c] - (if c in ks && c in sold then owned[c] else 0.0)
      + Times(Count(buy, c), Redistributed(ks, sold, owned, c))
  }

  /** Visiting one more spend key: nothing changes unless that coin was on the sell
      list; then it loses its owned value and every other coin gains a share of it
      per occurrence among the buy coins. */
  lemma WashedUpToStep(spend0: Dict<real>, buy: seq<Coin>, sold: seq<Coin>, owned: map<Coin, real>, ks: seq<Coin>, coin: Coin)
    requires spend0.Valid()
    requires forall k :: k in sold ==> k in owned
    requires coin !in ks
    ensures forall c :: c in spend0.vals ==>
              WashedUpTo(spend0, buy, sold, owned, ks + [coin])[c]
              == WashedUpTo(spend0, buy, sold, owned, ks)[c]
                 + (if coin !in sold then 0.0
                    else if c == coin then -owned[coin]
                    else Times(Count(buy, c), ShareOf(owned[coin])))
  {
    var ks' := ks + [coin];
    forall c | c in spend0.vals
      ensures WashedUpTo(spend0, buy, sold, owned, ks')[c]
              == WashedUpTo(spend0, buy, sold, owned, ks)[c]
                 + (if coin !in sold then 0.0
                    else if c == coin then -owned[coin]
                    else Times(Count(buy, c), ShareOf(owned[coin])))
    {
      WashedUpToStepAt(spend0, buy, sold, owned, ks, coin, c);
    }
  }

  /** `WashedUpToStep` for the one coin `c`. */
  lemma WashedUpToStepAt(spend0: Dict<real>, buy: seq<Coin>, sold: seq<Coin>, owned: map<Coin, real>,
                         ks: seq<Coin>, coin: Coin, c: Coin)
    requires spend0.Valid()
    requires forall k :: k in sold ==> k in owned
    requires coin !in ks && c in spend0.vals
    ensures WashedUpTo(spend0, buy, sold, owned, ks + [coin])[c]
            == WashedUpTo(spend0, buy, sold, owned, ks)[c]
               + (if coin !in sold then 0.0
                  else if c == coin then -owned[coin]
                  else Times(Count(buy, c), ShareOf(owned[coin])))
  {
    var ks' := ks + [coin];
    var n := Count(buy, c);
    var r, r' := Redistributed(ks, sold, owned, c), Redistributed(ks', sold, owned, c);
    var held := if c in ks && c in sold then owned[c] else 0.0;
    var held' := if c in ks' && c in sold then owned[c] else 0.0;
    var before, after := WashedUpTo(spend0, buy, sold, owned, ks)[c], WashedUpTo(spend0, buy, sold, owned, ks')[c];
    assert before == spend0.vals[c] - held + Times(n, r);
    assert after == spend0.vals[c] - held' + Times(n, r');
    RedistributedSnoc(ks, sold, owned, coin, c);
    if coin !in sold {
      assert held' == held && r' == r;
      assert after == before;
    } else if c == coin {
      assert held == 0.0 && held' == owned[c] && r' == r;
      assert after == before - owned[coin];
    } else {
      assert held' == held && r' == r + ShareOf(owned[coin]);
      var share := ShareOf(owned[coin]);
      TimesDistributes(n, r, share, r');
      assert after == before + Times(n, share);
    }
  }

  /** Visiting one more spend key adds a share of its owned value, if it was sold,
      to every other coin. */
  lemma RedistributedSnoc(ks: seq<Coin>, sold: seq<Coin>, owned: map<Coin, real>, coin: Coin, c: Coin)
    requires forall k :: k in sold ==> k in owned
    ensures Redistributed(ks + [coin], sold, owned, c)
            == Redistributed(ks, sold, owned, c) + (if coin in sold && coin != c then ShareOf(owned[coin]) else 0.0)
  {
    assert (ks + [coin])[..|ks|] == ks;
  }

  /** Once every spend key is visited, the values are the closed form. */
  lemma WashedUpToAllKeys(spend0: Dict<real>, buy: seq<Coin>, sold: seq<Coin>, owned: map<Coin, real>)
    requires spend0.Valid()
    requires forall k :: k in sold ==> k in owned
    ensures WashedUpTo(spend0, buy, sold, owned, spend0.keys) == WashAdjusted(spend0, buy, sold, owned)
  {
    var m1 := WashedUpTo(spend0, buy, sold, owned, spend0.keys);
    var m2 := WashAdjusted(spend0, buy, sold, owned);
    forall c | c in spend0.vals
      ensures m1[c] == m2[c]
    {
      assert c in spend0.keys;
    }
  }

  /** The spend values after a round that took the sold coin `coin` off the sell
      list: it loses its owned value, every other coin gains a third of that value
      per occurrence among the buy coins. */
  ghost predicate SoldRound(before: map<Coin, real>, after: map<Coin, real>, buy: seq<Coin>, owned: map<Coin, real>, coin: Coin)
  {
    coin in owned
    && forall c :: c in after ==>
         c in before
         && after[c] == before[c] + (if c == coin then -owned[coin] else Times(Count(buy, c), ShareOf(owned[coin])))
  }

  /** One round of the wash-trade loop, stated on the spend values. */
  lemma WashRound(spend0: Dict<real>, buy: seq<Coin>, sold: seq<Coin>, owned: map<Coin, real>,
                  ks: seq<Coin>, ks': seq<Coin>, coin: Coin, before: map<Coin, real>, after: map<Coin, real>)
    requires spend0.Valid()
    requires forall k :: k in sold ==> k in owned
    requires coin !in ks && ks' == ks + [coin]
    requires before == WashedUpTo(spend0, buy, sold, owned, ks)
    requires after.Keys == before.Keys
    requires coin in sold ==> SoldRound(before, after, buy, owned, coin)
    requires coin !in sold ==> after == before
    ensures after == WashedUpTo(spend0, buy, sold, owned, ks')
  {
    WashedUpToStep(spend0, buy, sold, owned, ks, coin);
    var target := WashedUpTo(spend0, buy, sold, owned, ks');
    assert target.Keys == before.Keys;
    forall c | c in after
      ensures after[c] == target[c]
    {
      assert c in spend0.vals;
    }
  }

  /** The spend values once the redistribution loop has visited the buy coins `visited`. */
  ghost predicate RedistributedOver(spend0: Dict<real>, spend: Dict<real>, visited: seq<Coin>, coin: Coin, share: real)
  {
    spend.Valid() && spend.keys == spend0.keys && spend.vals.Keys == spend0.vals.Keys
    && forall c :: c in spend.vals ==>
         spend.vals[c] == spend0.vals[c] + (if c != coin then Times(Count(visited, c), share) else 0.0)
  }

  /** One round of the redistribution loop keeps `RedistributedOver`. */
  lemma RedistributeStep(spend0: Dict<real>, spend: Dict<real>, visited: seq<Coin>, next: Coin, coin: Coin, share: real)
    requires spend0.Valid() && next in spend0.vals
    requires RedistributedOver(spend0, spend, visited, coin, share)
    ensures RedistributedOver(spend0, if next != coin then Put(spend, next, spend.vals[next] + share) else spend,
                              visited + [next], coin, share)
  {
    var visited' := visited + [next];
    assert visited'[..|visited'| - 1] == visited;
    var spend' := if next != coin then Put(spend, next, spend.vals[next] + share) else spend;
    assert spend'.Valid() && spend'.keys == spend0.keys && spend'.vals.Keys == spend0.vals.Keys;
    forall c | c in spend'.vals
      ensures spend'.vals[c] == spend0.vals[c] + (if c != coin then Times(Count(visited', c), share) else 0.0)
    {
      assert Count(visited', c) == Count(visited, c) + (if next == c then 1 else 0);
      if c == next && next != coin {
        assert spend'.vals[c] == spend.vals[c] + share;
        assert Times(Count(visited', c), share) == Times(Count(visited, c), share) + share;
      } else {
        assert spend'.vals[c] == spend.vals[c];
      }
    }
  }

  /** `for redis_coin in buy_coins: if redis_coin != coin: spend[redis_coin] += 1./(K-1) * available`. */
  method Redistribute(spend0: Dict<real>, buy: seq<Coin>, coin: Coin, available: real) returns (spend: Dict<real>)
    requires spend0.Valid()
    requires forall c :: c in buy ==> c in spend0.vals
    ensures spend.Valid() && spend.keys == spend0.keys && spend.vals.Keys == spend0.vals.Keys
    ensures forall c :: c in spend.vals ==>
              spend.vals[c] == spend0.vals[c] + (if c != coin then Times(Count(buy, c), ShareOf(available)) else 0.0)
  {
    var share := ShareOf(available);
    spend := spend0;
    assert buy[..0] == [];
    for j := 0 to |buy|
      invariant RedistributedOver(spend0, spend, buy[..j], coin, share)
    {
      RedistributeStep(spend0, spend, buy[..j], buy[j], coin, share);
      assert buy[..j + 1] == buy[..j] + [buy[j]];
      if buy[j] != coin {
        spend := Put(spend, buy[j], spend.vals[buy[j]] + share);
      }
    }
    assert buy[..|buy|] == buy;
  }

  /** One round of the wash-trade loop, for the spend entry of `coin`. */
  method VisitSpendEntry(sell0: seq<Coin>, spend0: Dict<real>, buy: seq<Coin>, owned: map<Coin, real>, coin: Coin)
    returns (sell: seq<Coin>, spend: Dict<real>)
    requires spend0.Valid() && coin in spend0.vals && Distinct(sell0)
    requires forall c :: c in buy ==> c in spend0.vals
    requires forall c :: c in sell0 ==> c in owned
    ensures coin !in sell0 ==> sell == sell0 && spend == spend0
    ensures coin in sell0 ==> sell == Exclude(sell0, {coin})
    ensures spend.Valid() && spend.keys == spend0.keys && spend.vals.Keys == spend0.vals.Keys
    ensures coin in sell0 ==> SoldRound(spend0.vals, spend.vals, buy, owned, coin)
  {
    sell, spend := sell0, spend0;
    var amount := spend.vals[coin];
    if coin in sell {
      RemoveFirstOfDistinct(sell, coin);
      sell := RemoveFirst(sell, coin);
      spend := Put(spend, coin, amount - owned[coin]);
      var available := owned[coin];
      spend := Redistribute(spend, buy, coin, available);
    }
  }

  /** The sell list and spend once the wash-trade loop has visited the spend keys `visited`. */
  ghost predicate WashedOver(spend0: Dict<real>, buy: seq<Coin>, sold: seq<Coin>, owned: map<Coin, real>,
                             visited: seq<Coin>, sell: seq<Coin>, spend: Dict<real>)
    requires spend0.Valid()
    requires forall k :: k in sold ==> k in owned
  {
    spend.Valid() && spend.keys == spend0.keys && spend.vals.Keys == spend0.vals.Keys
    && sell == Exclude(sold, Elems(visited))
    && spend.vals == WashedUpTo(spend0, buy, sold, owned, visited)
  }

  /** A round of the wash-trade loop, as `VisitSpendEntry` states it, keeps `WashedOver`. */
  lemma WashVisitKeeps(spend0: Dict<real>, buy: seq<Coin>, sold: seq<Coin>, owned: map<Coin, real>, i: nat,
                       sellIn: seq<Coin>, spendIn: Dict<real>, sell: seq<Coin>, spend: Dict<real>)
    requires spend0.Valid() && i < |spend0.keys| && Distinct(sold)
    requires forall k :: k in sold ==> k in owned
    requires WashedOver(spend0, buy, sold, owned, spend0.keys[..i], sellIn, spendIn)
    requires var coin := spend0.keys[i];
             && (coin !in sellIn ==> sell == sellIn && spend == spendIn)
             && (coin in sellIn ==> sell == Exclude(sellIn, {coin}))
             && spend.Valid() && spend.keys == spendIn.keys && spend.vals.Keys == spendIn.vals.Keys
             && (coin in sellIn ==> SoldRound(spendIn.vals, spend.vals, buy, owned, coin))
    ensures WashedOver(spend0, buy, sold, owned, spend0.keys[..i + 1], sell, spend)
  {
    var keys := spend0.keys;
    var coin := keys[i];
    WashSellStep(sold, keys, i, sellIn, sell);
    PrefixSnoc(keys, i);
    if coin in sellIn {
      assert coin in sold;
      WashRound(spend0, buy, sold, owned, keys[..i], keys[..i + 1], coin, spendIn.vals, spend.vals);
    } else {
      assert coin !in sold && spend.vals == spendIn.vals;
      WashRound(spend0, buy, sold, owned, keys[..i], keys[..i + 1], coin, spendIn.vals, spend.vals);
    }
  }

  /** A round of the wash-trade loop on the sell list: the spend key is taken off
      it, if it is still there. */
  lemma WashSellStep(sold: seq<Coin>, keys: seq<Coin>, i: nat, sellIn: seq<Coin>, sell: seq<Coin>)
    requires Distinct(keys) && i < |keys|
    requires sellIn == Exclude(sold, Elems(keys[..i]))
    requires keys[i] !in sellIn ==> sell == sellIn
    requires keys[i] in sellIn ==> sell == Exclude(sellIn, {keys[i]})
    ensures sell == Exclude(sold, Elems(keys[..i + 1]))
    ensures keys[i] !in keys[..i] && (keys[i] in sellIn <==> keys[i] in sold)
  {
    ElemsSnoc(keys, i);
    ExcludeTwice(sold, Elems(keys[..i]), {keys[i]});
    if keys[i] !in sellIn {
      ExcludeNothing(sellIn, {keys[i]});
    }
  }

  /** The wash-trade loop: for every spend entry, in order, whose coin is still on
      the sell list, take it off the list, lower its spend by its owned value and
      give each other buy coin a share of that value. The amount read is the
      entry's current value, which earlier rounds may have raised. */
  method AvoidWashTrades(spend0: Dict<real>, buy: seq<Coin>, sold: seq<Coin>, owned: map<Coin, real>)
    returns (sell: seq<Coin>, spend: Dict<real>)
    requires spend0.Valid() && Distinct(sold)
    requires forall c :: c in buy ==> c in spend0.vals
    requires forall c :: c in sold ==> c in owned
    ensures sell == Exclude(sold, spend0.vals.Keys)
    ensures spend == Dict(spend0.keys, WashAdjusted(spend0, buy, sold, owned))
  {
    var keys := spend0.keys;
    sell, spend := sold, spend0;
    WashedOverStart(spend0, buy, sold, owned);
    for i := 0 to |keys|
      invariant WashedOver(spend0, buy, sold, owned, keys[..i], sell, spend)
    {
      var sellIn, spendIn := sell, spend;
      sell, spend := VisitSpendEntry(sellIn, spendIn, buy, owned, keys[i]);
      WashVisitKeeps(spend0, buy, sold, owned, i, sellIn, spendIn, sell, spend);
    }
    WashedOverEnd(spend0, buy, sold, owned, sell, spend);
  }

  /** Before the wash-trade loop nothing is visited. */
  lemma WashedOverStart(spend0: Dict<real>, buy: seq<Coin>, sold: seq<Coin>, owned: map<Coin, real>)
    requires spend0.Valid()
    requires forall k :: k in sold ==> k in owned
    ensures WashedOver(spend0, buy, sold, owned, spend0.keys[..0], sold, spend0)
  {
    ExcludeNothing(sold, {});
    forall c | c in spend0.vals
      ensures WashedUpTo(spend0, buy, sold, owned, spend0.keys[..0])[c] == spend0.vals[c]
    {
      TimesZero(Count(buy, c));
    }
    assert WashedUpTo(spend0, buy, sold, owned, spend0.keys[..0]) == spend0.vals;
    assert Elems(spend0.keys[..0]) == {};
  }

  /** After the wash-trade loop every spend key is visited. */
  lemma WashedOverEnd(spend0: Dict<real>, buy: seq<Coin>, sold: seq<Coin>, owned: map<Coin, real>,
                      sell: seq<Coin>, spend: Dict<real>)
    requires spend0.Valid()
    requires forall k :: k in sold ==> k in owned
    requires WashedOver(spend0, buy, sold, owned, spend0.keys[..|spend0.keys|], sell, spend)
    ensures sell == Exclude(sold, spend0.vals.Keys)
    ensures spend == Dict(spend0.keys, WashAdjusted(spend0, buy, sold, owned))
  {
    assert spend0.keys[..|spend0.keys|] == spend0.keys;
    assert Elems(spend0.keys) == spend0.vals.Keys;
    WashedUpToAllKeys(spend0, buy, sold, owned);
  }

  /** SmallSells over one more coin of the sell list. */
  lemma SmallSellsSnoc(sell: seq<Coin>, owned: map<Coin, real>, minSpend: real, i: nat)
    requires i < |sell| && sell[i] in owned
    ensures SmallSells(sell[..i + 1], owned, minSpend)
         == SmallSells(sell[..i], owned, minSpend) + (if owned[sell[i]] < minSpend then {sell[i]} else {})
  {
    assert sell[..i + 1] == sell[..i] + [sell[i]];
  }

  /** The owned coins once the minimum-spend loop has visited the sell coins `visited`. */
  ghost predicate PrunedOver(owned: Dict<real>, pruned: Dict<real>, visited: seq<Coin>, minSpend: real)
  {
    pruned.Valid()
    && pruned.vals == owned.vals - SmallSells(visited, owned.vals, minSpend)
    && pruned.keys == Exclude(owned.keys, SmallSells(visited, owned.vals, minSpend))
  }

  /** One step of the minimum-spend loop, for the `i`-th coin on the sell list. */
  lemma PruneStep(owned: Dict<real>, pruned: Dict<real>, sell: seq<Coin>, minSpend: real, i: nat)
    requires owned.Valid() && i < |sell| && Distinct(sell) && sell[i] in owned.vals
    requires PrunedOver(owned, pruned, sell[..i], minSpend)
    ensures sell[i] in pruned.vals
    ensures PrunedOver(owned, if pruned.vals[sell[i]] < minSpend then Pop(pruned, sell[i]) else pruned,
                       sell[..i + 1], minSpend)
  {
    var coin := sell[i];
    SmallSellsSnoc(sell, owned.vals, minSpend, i);
    var small := SmallSells(sell[..i], owned.vals, minSpend);
    assert coin !in small;
    assert pruned.vals[coin] == owned.vals[coin];
    var small' := SmallSells(sell[..i + 1], owned.vals, minSpend);
    if owned.vals[coin] < minSpend {
      assert small' == small + {coin};
      PopOneMore(owned, pruned, small, coin);
    } else {
      assert small' == small;
    }
  }

  /** Popping one more coin from the owned coins with `small` already popped. */
  lemma PopOneMore(owned: Dict<real>, pruned: Dict<real>, small: set<Coin>, coin: Coin)
    requires pruned.Valid() && pruned.vals == owned.vals - small && pruned.keys == Exclude(owned.keys, small)
    ensures Pop(pruned, coin).vals == owned.vals - (small + {coin})
    ensures Pop(pruned, coin).keys == Exclude(owned.keys, small + {coin})
  {
    ExcludeTwice(owned.keys, small, {coin});
    MapMinusTwice(owned.vals, small, {coin});
  }

  /** Removing two sets of keys from a map in turn removes their union. */
  lemma MapMinusTwice(m: map<Coin, real>, xs: set<Coin>, ys: set<Coin>)
    ensures (m - xs) - ys == m - (xs + ys)
  {
    assert ((m - xs) - ys).Keys == (m - (xs + ys)).Keys;
  }

  /** The trailing "minimum spend" loop: it pops, from the owned-coins dict only,
      every coin on the sell list whose owned value is below the minimum spend. */
  method PruneSmallSells(sell: seq<Coin>, owned: Dict<real>, minSpend: real) returns (pruned: Dict<real>)
    requires owned.Valid() && Distinct(sell)
    requires forall c :: c in sell ==> c in owned.vals
    ensures pruned.Valid()
    ensures pruned.vals == owned.vals - SmallSells(sell, owned.vals, minSpend)
    ensures pruned.keys == Exclude(owned.keys, SmallSells(sell, owned.vals, minSpend))
  {
    pruned := owned;
    ExcludeNothing(owned.keys, {});
    assert SmallSells(sell[..0], owned.vals, minSpend) == {};
    for i := 0 to |sell|
      invariant PrunedOver(owned, pruned, sell[..i], minSpend)
    {
      PruneStep(owned, pruned, sell, minSpend, i);
      if pruned.vals[sell[i]] < minSpend {
        pruned := Pop(pruned, sell[i]);
      }
    }
    assert sell[..|sell|] == sell;
  }

  /** `__sell_and_spendings__`. The minimum-spend pruning runs on the owned
      coins and its result is dropped, as in the source. */
  method SellAndSpendings(netWorth: real, growths: seq<Growth>, symbolFor: string -> Coin,
                          owned0: Dict<real>, minSpend: real, scale: bool) returns (r: Result<Plan, PlanError>)
    requires owned0.Valid()
    ensures r == ExpectedPlan(netWorth, growths, symbolFor, owned0, scale)
  {
    if |growths| != K {
      return Failure(GrowthCountNotK);
    }
    var buy := BuyCoins(growths, symbolFor);
    var owned := Pop(owned0, BaseCoin);
    var base := Allocate(buy, Scores(growths), netWorth, scale);
    if base.Failure? {
      return Failure(base.error);
    }
    var sell, spend := AvoidWashTrades(base.value, buy, owned.keys, owned.vals);
    var _ := PruneSmallSells(sell, owned, minSpend);
    return Success(Plan(sell, spend));
  }

  /** The two order loops of the policy: `sell_all` for every coin on the sell
      list, then `buy_by_symbol` for every spend entry. */
  method IssueOrders(p: Plan) returns (orders: seq<Order>)
    requires p.spend.Valid()
    ensures orders == Orders(p)
  {
    orders := [];
    for i := 0 to |p.sell|
      invariant orders == seq(i, k requires 0 <= k < i => SellAll(p.sell[k]))
    {
      orders := orders + [SellAll(p.sell[i])];
    }
    for j := 0 to |p.spend.keys|
      invariant |orders| == |p.sell| + j
      invariant forall k :: 0 <= k < |p.sell| ==> orders[k] == SellAll(p.sell[k])
      invariant forall k :: 0 <= k < j ==> orders[|p.sell| + k] == Buy(p.spend.keys[k], p.spend.vals[p.spend.keys[k]])
    {
      var coin := p.spend.keys[j];
      orders := orders + [Buy(coin, p.spend.vals[coin])];
    }
  }

  /** `subreddit_growth_policy`: nothing is traded when the last trade is less
      than 23 hours old; otherwise every sell of the plan is issued, then every buy. */
  method SubredditGrowthPolicy(now: real, lastTrade: real, ranked: seq<Growth>, netWorth: real,
                               symbolFor: string -> Coin, owned0: Dict<real>, minSpend: real, scale: bool)
    returns (r: Result<seq<Order>, PlanError>)
    requires owned0.Valid()
    ensures lastTrade > now - TradeWindow ==> r == Success([])
    ensures lastTrade <= now - TradeWindow ==>
              r == match ExpectedPlan(netWorth, TopK(ranked), symbolFor, owned0, scale)
                   case Failure(e) => Failure(e)
                   case Success(p) => Success(Orders(p))
  {
    if lastTrade > now - TradeWindow {
      return Success([]);
    }
    var planned := SellAndSpendings(netWorth, TopK(ranked), symbolFor, owned0, minSpend, scale);
    if planned.Failure? {
      return Failure(planned.error);
    }
    var orders := IssueOrders(planned.value);
    return Success(orders);
  }

  // ---------------------------------------------------------------------------
  // Properties of the plan

  /** With distinct spend keys, a coin's redistributed amount is a third of the
      owned value of every spend key on the sell list other than itself. */
  lemma {:induction false} RedistributedClosed(ks: seq<Coin>, sold: seq<Coin>, owned: map<Coin, real>, c: Coin)
    requires Distinct(ks)
    requires forall k :: k in sold ==> k in owned
    ensures Redistributed(ks, sold, owned, c)
            == ShareOf(Kept(ks, sold, owned)) - (if c in ks && c in sold then ShareOf(owned[c]) else 0.0)
  {
    if |ks| > 0 {
      var init := ks[..|ks| - 1];
      RedistributedClosed(init, sold, owned, c);
      assert forall e :: e in ks <==> e in init || e == ks[|ks| - 1];
    }
  }

  /** The sum of a spend map whose every entry loses its sold value and a third of
      it, and gains `t`. */
  lemma {:induction false} SumOverWashShape(ks: seq<Coin>, m: map<Coin, real>, base: map<Coin, real>,
                                            sold: seq<Coin>, owned: map<Coin, real>, t: real)
    requires forall k :: k in sold ==> k in owned
    requires forall c :: c in ks ==> c in m && c in base
    requires forall c :: c in ks ==>
               m[c] == base[c] - (if c in sold then owned[c] + ShareOf(owned[c]) else 0.0) + t
    ensures SumOver(ks, m) == SumOver(ks, base) - Kept(ks, sold, owned) - ShareOf(Kept(ks, sold, owned)) + Times(|ks|, t)
  {
    if |ks| > 0 {
      SumOverWashShape(ks[..|ks| - 1], m, base, sold, owned, t);
    }
  }

  /** The sum of four values. */
  lemma SeqSumFour(xs: seq<real>)
    requires |xs| == 4
    ensures SeqSum(xs) == xs[0] + xs[1] + xs[2] + xs[3]
  {
    assert xs[..3][..2] == xs[..2] && xs[..2][..1] == xs[..1] && xs[..1][..0] == [];
    assert SeqSum(xs[..1]) == xs[0];
    assert SeqSum(xs[..2]) == xs[0] + xs[1];
    assert SeqSum(xs[..3]) == xs[0] + xs[1] + xs[2];
  }

  /** The base split spends exactly the net worth when the buy coins are distinct. */
  lemma BaseSpendSumsToNetWorth(buy: seq<Coin>, gs: seq<real>, netWorth: real, scale: bool)
    requires |buy| == K && |gs| == K && Distinct(buy)
    requires BaseSpend(buy, gs, netWorth, scale).Success?
    ensures SumValues(BaseSpend(buy, gs, netWorth, scale).value) == netWorth
  {
    if scale {
      var sh := Shifted(gs);
      var total := SeqSum(sh);
      FromPairsSum(buy, Proportional(sh, total, netWorth));
      ProportionalSumsToNetWorth(sh, total, netWorth);
    } else {
      FromPairsSum(buy, EqualSplit(netWorth));
      EqualSplitSumsToNetWorth(netWorth);
    }
  }

  /** The proportional amounts add up to the net worth. */
  lemma ProportionalSumsToNetWorth(s: seq<real>, total: real, netWorth: real)
    requires |s| == K && total == SeqSum(s) && total != 0.0
    ensures SeqSum(Proportional(s, total, netWorth)) == netWorth
  {
    var a := Proportional(s, total, netWorth);
    SeqSumFour(a);
    SeqSumFour(s);
    assert a[0] + a[1] + a[2] + a[3]
        == (s[0] / total) * netWorth + (s[1] / total) * netWorth + (s[2] / total) * netWorth + (s[3] / total) * netWorth;
    ProportionalShares(s[0], s[1], s[2], s[3], netWorth);
  }

  /** The equal amounts add up to the net worth. */
  lemma EqualSplitSumsToNetWorth(netWorth: real)
    ensures SeqSum(EqualSplit(netWorth)) == netWorth
  {
    SeqSumFour(EqualSplit(netWorth));
  }

  /** Four proportional shares of `n` add up to `n`. */
  lemma ProportionalShares(s0: real, s1: real, s2: real, s3: real, n: real)
    requires s0 + s1 + s2 + s3 != 0.0
    ensures var t := s0 + s1 + s2 + s3;
            (s0 / t) * n + (s1 / t) * n + (s2 / t) * n + (s3 / t) * n == n
  {
    var t := s0 + s1 + s2 + s3;
    var q0, q1, q2, q3 := s0 / t, s1 / t, s2 / t, s3 / t;
    assert s0 == q0 * t && s1 == q1 * t && s2 == q2 * t && s3 == q3 * t;
    assert (q0 + q1 + q2 + q3) * t == q0 * t + q1 * t + q2 * t + q3 * t;
    assert q0 + q1 + q2 + q3 == 1.0;
    assert q0 * n + q1 * n + q2 * n + q3 * n == (q0 + q1 + q2 + q3) * n;
  }

  /** With distinct buy coins as the spend keys, a coin's adjusted spend is its
      base spend, less what it is already owned for (when it is on the sell list),
      plus a third of the owned value of every other spend key on the sell list. */
  lemma WashAdjustedValue(spend0: Dict<real>, buy: seq<Coin>, sold: seq<Coin>, owned: map<Coin, real>, c: Coin)
    requires spend0.Valid() && spend0.keys == buy
    requires forall k :: k in sold ==> k in owned
    requires c in spend0.vals
    ensures WashAdjusted(spend0, buy, sold, owned)[c]
            == spend0.vals[c] - (if c in sold then owned[c] else 0.0)
               + ShareOf(Kept(buy, sold, owned) - (if c in sold then owned[c] else 0.0))
  {
    CountInDistinct(buy, c);
    TimesSmall(Redistributed(buy, sold, owned, c));
    RedistributedClosed(buy, sold, owned, c);
  }

  /** `Times(1, x)` is `x` and `Times(4, x)` is four times `x`. */
  lemma TimesSmall(x: real)
    ensures Times(1, x) == x && Times(4, x) == 4.0 * x
  {
    assert Times(1, x) == x;
    assert Times(2, x) == x + x;
    assert Times(3, x) == x + x + x;
  }

  /** With distinct buy coins the plan spends exactly the net worth: what a coin
      already owned saves is handed to the three other buy coins in thirds. */
  lemma PlanConservesNetWorth(netWorth: real, growths: seq<Growth>, symbolFor: string -> Coin,
                              owned0: Dict<real>, scale: bool)
    requires owned0.Valid() && |growths| == K && Distinct(BuyCoins(growths, symbolFor))
    requires ExpectedPlan(netWorth, growths, symbolFor, owned0, scale).Success?
    ensures SumValues(ExpectedPlan(netWorth, growths, symbolFor, owned0, scale).value.spend) == netWorth
  {
    var buy := BuyCoins(growths, symbolFor);
    var owned := Pop(owned0, BaseCoin);
    var base := BaseSpend(buy, Scores(growths), netWorth, scale).value;
    DedupOfDistinct(buy);
    WashAdjustedConserves(base, buy, owned.keys, owned.vals);
    BaseSpendSumsToNetWorth(buy, Scores(growths), netWorth, scale);
  }

  /** Wash-trade avoidance over distinct buy coins keeps the sum of the spend:
      what a coin already owned saves is handed to the three others in thirds. */
  lemma WashAdjustedConserves(base: Dict<real>, buy: seq<Coin>, sold: seq<Coin>, owned: map<Coin, real>)
    requires base.Valid() && base.keys == buy && |buy| == K
    requires forall k :: k in sold ==> k in owned
    ensures SumOver(buy, WashAdjusted(base, buy, sold, owned)) == SumOver(buy, base.vals)
  {
    var kept := Kept(buy, sold, owned);
    WashAdjustedShape(base, buy, sold, owned);
    SumOverWashShape(buy, WashAdjusted(base, buy, sold, owned), base.vals, sold, owned, ShareOf(kept));
    TimesSmall(ShareOf(kept));
  }

  /** `WashAdjustedValue` for every buy coin, with the share of the coin's own
      owned value split off. */
  lemma WashAdjustedShape(base: Dict<real>, buy: seq<Coin>, sold: seq<Coin>, owned: map<Coin, real>)
    requires base.Valid() && base.keys == buy
    requires forall k :: k in sold ==> k in owned
    ensures forall c :: c in buy ==>
              WashAdjusted(base, buy, sold, owned)[c]
              == base.vals[c] - (if c in sold then owned[c] + ShareOf(owned[c]) else 0.0) + ShareOf(Kept(buy, sold, owned))
  {
    forall c | c in buy
      ensures WashAdjusted(base, buy, sold, owned)[c]
              == base.vals[c] - (if c in sold then owned[c] + ShareOf(owned[c]) else 0.0) + ShareOf(Kept(buy, sold, owned))
    {
      WashAdjustedValue(base, buy, sold, owned, c);
    }
  }

  /** Without scaling every buy coin is given the K-th part of the net worth. */
  lemma EqualSplitValues(buy: seq<Coin>, gs: seq<real>, netWorth: real)
    requires |buy| == K && |gs| == K
    ensures forall c :: c in BaseSpend(buy, gs, netWorth, false).value.vals ==>
              BaseSpend(buy, gs, netWorth, false).value.vals[c] == netWorth / 4.0
  {
    FromPairsConstant(buy, EqualSplit(netWorth), netWorth / K as real);
  }

  /** With scaling and distinct buy coins, the i-th buy coin is given the net worth
      times its shifted growth's part of the shifted growths' sum. */
  lemma ScaledSplitValues(buy: seq<Coin>, gs: seq<real>, netWorth: real)
    requires |buy| == K && |gs| == K && Distinct(buy)
    requires BaseSpend(buy, gs, netWorth, true).Success?
    ensures SeqSum(Shifted(gs)) != 0.0
    ensures forall i :: 0 <= i < K ==>
              BaseSpend(buy, gs, netWorth, true).value.vals[buy[i]]
              == Portion(Shifted(gs)[i], SeqSum(Shifted(gs)), netWorth)
  {
    var sh := Shifted(gs);
    var a := Proportional(sh, SeqSum(sh), netWorth);
    var d := FromPairs(buy, a);
    FromPairsDistinct(buy, a);
    forall i | 0 <= i < K
      ensures d.vals[buy[i]] == Portion(sh[i], SeqSum(sh), netWorth)
    {
      assert d.vals[buy[i]] == a[i];
    }
  }

  /** Shifting: a negative K-th growth becomes 1, and when it is the smallest
      growth every shifted growth is at least 1, so the scaled split is defined. */
  lemma ShiftedAtLeastOne(gs: seq<real>)
    requires |gs| == K && gs[K - 1] < 0.0
    ensures Shifted(gs)[K - 1] == 1.0
    ensures (forall i :: 0 <= i < K ==> gs[K - 1] <= gs[i]) ==>
              (forall i :: 0 <= i < K ==> Shifted(gs)[i] >= 1.0) && SeqSum(Shifted(gs)) >= 4.0
  {
    SeqSumFour(Shifted(gs));
  }

  /** Nobody's share: when no spend key is on the sell list nothing is redistributed. */
  lemma {:induction false} RedistributedNone(ks: seq<Coin>, sold: seq<Coin>, owned: map<Coin, real>, c: Coin)
    requires forall k :: k in sold ==> k in owned
    requires forall k :: k in ks ==> k !in sold
    ensures Redistributed(ks, sold, owned, c) == 0.0
  {
    if |ks| > 0 {
      RedistributedNone(ks[..|ks| - 1], sold, owned, c);
    }
  }

  /** When no coin to buy is owned, wash-trade avoidance leaves the spend map as it is. */
  lemma WashAdjustedNoOverlap(spend0: Dict<real>, buy: seq<Coin>, sold: seq<Coin>, owned: map<Coin, real>)
    requires spend0.Valid()
    requires forall k :: k in sold ==> k in owned
    requires forall k :: k in spend0.keys ==> k !in sold
    ensures WashAdjusted(spend0, buy, sold, owned) == spend0.vals
  {
    forall c | c in spend0.vals
      ensures WashAdjusted(spend0, buy, sold, owned)[c] == spend0.vals[c]
    {
      RedistributedNone(spend0.keys, sold, owned, c);
      TimesZero(Count(buy, c));
    }
  }
}
