/** The CoinMarketCap lookups (coinmarketcap.py): matching requested coins
    against the API's ticker records, and valuing a portfolio in USD. The decoded
    JSON record list is an input; numbers arrive already parsed. */
module CoinMarketCap {
  import opened Collections

  /** One record of the ticker API. */
  datatype ApiCoin = ApiCoin(id: string, name: string, symbol: string,
                             change1h: string, change24h: string, priceUsd: real)

  /** The entry `get_coin_price_data` records for a matched coin. */
  datatype PriceEntry = PriceEntry(coinId: string, coinName: string, symbol: string,
                                   change1h: string, change24h: string, price: real)

  /** A requested coin: the names it is known by (an id, a name, a symbol, ...). */
  type CoinNames = seq<string>

  predicate IsAlnum(c: char) {
    ('a' <= c <= 'z') || ('A' <= c <= 'Z') || ('0' <= c <= '9')
  }

  /** `str.lower` on one ASCII character: a capital becomes its small letter,
      every other character is kept. */
  function Lower(c: char): (l: char)
    ensures 'A' <= c <= 'Z' ==> 'a' <= l <= 'z' && l as int == c as int + 32
    ensures !('A' <= c <= 'Z') ==> l == c
    ensures IsAlnum(c) ==> IsAlnum(l) && !('A' <= l <= 'Z')
  {
    if 'A' <= c <= 'Z' then (c as int - 'A' as int + 'a' as int) as char else c
  }

  /** `"".join(x for x in id if x.isalnum()).lower()`. */
  function NormalizeId(id: string): (r: string)
    ensures |r| <= |id|
    ensures forall i :: 0 <= i < |r| ==> IsAlnum(r[i]) && !('A' <= r[i] <= 'Z')
  {
    if |id| == 0 then ""
    else
      var rest := NormalizeId(id[1..]);
      if IsAlnum(id[0]) then [Lower(id[0])] + rest else rest
  }

  /** A single character normalises to its lower-case form when alphanumeric,
      and to nothing otherwise. */
  lemma NormalizeIdSingle(c: char)
    ensures NormalizeId([c]) == if IsAlnum(c) then [Lower(c)] else []
  {
    assert [c][1..] == [];
  }

  /** Normalisation works character by character, keeping the order: the
      normalised concatenation is the concatenation of the normalised parts. */
  lemma {:induction false} NormalizeIdAppend(a: string, b: string)
    ensures NormalizeId(a + b) == NormalizeId(a) + NormalizeId(b)
  {
    if |a| > 0 {
      assert (a + b)[0] == a[0];
      assert (a + b)[1..] == a[1..] + b;
      NormalizeIdAppend(a[1..], b);
    } else {
      assert a + b == b;
    }
  }

  /** Normalising a normalised id changes nothing. */
  lemma {:induction false} NormalizeIdIdempotent(id: string)
    ensures NormalizeId(NormalizeId(id)) == NormalizeId(id)
  {
    NormalizedIsFixed(NormalizeId(id));
  }

  lemma {:induction false} NormalizedIsFixed(s: string)
    requires forall i :: 0 <= i < |s| ==> IsAlnum(s[i]) && !('A' <= s[i] <= 'Z')
    ensures NormalizeId(s) == s
  {
    if |s| > 0 {
      NormalizedIsFixed(s[1..]);
      assert [s[0]] + s[1..] == s;
    }
  }

  /** A record matches a requested coin when its normalised id, its id or its
      name is one of the coin's names. */
  predicate Matches(api: ApiCoin, coin: CoinNames) {
    NormalizeId(api.id) in coin || api.id in coin || api.name in coin
  }

  /** The index of the first record, in API order, that matches the coin. */
  function FirstMatch(data: seq<ApiCoin>, coin: CoinNames): (r: Option<nat>)
    ensures r.None? <==> forall j :: 0 <= j < |data| ==> !Matches(data[j], coin)
    ensures r.Some? ==> r.value < |data| && Matches(data[r.value], coin)
    ensures r.Some? ==> forall j :: 0 <= j < r.value ==> !Matches(data[j], coin)
  {
    if |data| == 0 then None
    else if Matches(data[0], coin) then Some(0)
    else
      match FirstMatch(data[1..], coin)
      case None => None
      case Some(i) => Some(i + 1)
  }

  /** The key a requested coin is recorded under: the normalised id of its first
      matching record, if any. */
  function MatchedKey(data: seq<ApiCoin>, coin: CoinNames): (k: Option<Key>)
    ensures k.Some? <==> FirstMatch(data, coin).Some?
    ensures k.Some? ==> k.value == NormalizeId(data[FirstMatch(data, coin).value].id)
  {
    match FirstMatch(data, coin)
    case None => None
    case Some(i) => Some(NormalizeId(data[i].id))
  }

  function EntryOf(api: ApiCoin): PriceEntry {
    PriceEntry(api.id, api.name, api.symbol, api.change1h, api.change24h, api.priceUsd)
  }

  /** The dict `get_coin_price_data` returns: for each requested coin in order,
      its first matching record, keyed by that record's normalised id. */
  function PriceDataOf(coins: seq<CoinNames>, data: seq<ApiCoin>): (d: Dict<PriceEntry>)
    ensures d.Valid()
    ensures forall k :: k in d.vals ==>
              exists i :: 0 <= i < |data| && NormalizeId(data[i].id) == k && d.vals[k] == EntryOf(data[i])
    ensures forall c :: c in coins && FirstMatch(data, c).Some? ==>
              NormalizeId(data[FirstMatch(data, c).value].id) in d.vals
  {
    if |coins| == 0 then Empty()
    else
      var init := PriceDataOf(coins[..|coins| - 1], data);
      var c := coins[|coins| - 1];
      assert forall x :: x in coins <==> x in coins[..|coins| - 1] || x == c;
      match FirstMatch(data, c)
      case None => init
      case Some(i) => Put(init, NormalizeId(data[i].id), EntryOf(data[i]))
  }

  /** The keys the requested coins are recorded under, in request order. */
  function KeysOf(coins: seq<CoinNames>, data: seq<ApiCoin>): (ks: seq<Option<Key>>)
    ensures |ks| == |coins|
    ensures forall j :: 0 <= j < |coins| ==> ks[j] == MatchedKey(data, coins[j])
  {
    seq(|coins|, j requires 0 <= j < |coins| => MatchedKey(data, coins[j]))
  }

  /** The last position of `x` in `xs`, if any. */
  function LastIndex<T(==)>(xs: seq<T>, x: T): (r: Option<nat>)
    ensures r.None? <==> x !in xs
    ensures r.Some? ==> r.value < |xs| && xs[r.value] == x
    ensures r.Some? ==> forall j :: r.value < j < |xs| ==> xs[j] != x
  {
    if |xs| == 0 then None
    else if xs[|xs| - 1] == x then Some(|xs| - 1)
    else
      assert xs == xs[..|xs| - 1] + [xs[|xs| - 1]];
      LastIndex(xs[..|xs| - 1], x)
  }

  /** The position of the last requested coin recorded under key `k`, if any. */
  function LastWithKey(coins: seq<CoinNames>, data: seq<ApiCoin>, k: Key): (r: Option<nat>)
    ensures r.None? <==> forall j :: 0 <= j < |coins| ==> MatchedKey(data, coins[j]) != Some(k)
    ensures r.Some? ==> r.value < |coins| && MatchedKey(data, coins[r.value]) == Some(k)
    ensures r.Some? ==> forall j :: r.value < j < |coins| ==> MatchedKey(data, coins[j]) != Some(k)
  {
    var ks := KeysOf(coins, data);
    assert forall j :: 0 <= j < |coins| ==> (ks[j] == Some(k) <==> MatchedKey(data, coins[j]) == Some(k));
    LastIndex(ks, Some(k))
  }

  /** `LastWithKey` looks at the last requested coin first, then at the ones before it. */
  lemma LastWithKeySnoc(coins: seq<CoinNames>, data: seq<ApiCoin>, k: Key)
    requires |coins| > 0
    ensures var n := |coins| - 1;
            LastWithKey(coins, data, k)
            == if MatchedKey(data, coins[n]) == Some(k) then Some(n) else LastWithKey(coins[..n], data, k)
  {
    var n := |coins| - 1;
    var init := coins[..n];
    var ks, ki := KeysOf(coins, data), KeysOf(init, data);
    forall j | 0 <= j < n
      ensures ks[..n][j] == ki[j]
    {
      assert init[j] == coins[j];
    }
    assert ks[..n] == ki;
    assert LastWithKey(coins, data, k) == LastIndex(ks, Some(k));
    assert LastWithKey(init, data, k) == LastIndex(ki, Some(k));
  }

  /** The price data holds a key exactly when some requested coin is recorded
      under it, and its entry is the first matching record of the LAST such coin:
      a later coin with the same key overwrites an earlier one. */
  lemma PriceDataOfLastMatch(coins: seq<CoinNames>, data: seq<ApiCoin>)
    ensures forall k :: k in PriceDataOf(coins, data).vals <==> LastWithKey(coins, data, k).Some?
    ensures forall k :: k in PriceDataOf(coins, data).vals ==>
              PriceDataOf(coins, data).vals[k] == EntryOf(data[FirstMatch(data, coins[LastWithKey(coins, data, k).value]).value])
  {
    forall k
      ensures k in PriceDataOf(coins, data).vals <==> LastWithKey(coins, data, k).Some?
      ensures k in PriceDataOf(coins, data).vals ==>
                PriceDataOf(coins, data).vals[k] == EntryOf(data[FirstMatch(data, coins[LastWithKey(coins, data, k).value]).value])
    {
      PriceDataOfAt(coins, data, k);
    }
  }

  /** `PriceDataOfLastMatch` for one key. */
  lemma {:induction false} PriceDataOfAt(coins: seq<CoinNames>, data: seq<ApiCoin>, k: Key)
    ensures k in PriceDataOf(coins, data).vals <==> LastWithKey(coins, data, k).Some?
    ensures k in PriceDataOf(coins, data).vals ==>
              PriceDataOf(coins, data).vals[k] == EntryOf(data[FirstMatch(data, coins[LastWithKey(coins, data, k).value]).value])
  {
    if |coins| > 0 {
      var n := |coins| - 1;
      var init := coins[..n];
      PriceDataOfAt(init, data, k);
      LastWithKeySnoc(coins, data, k);
      if MatchedKey(data, coins[n]) != Some(k) {
        if k in PriceDataOf(init, data).vals {
          var j := LastWithKey(init, data, k).value;
          assert init[j] == coins[j];
        }
      }
    }
  }

  /** A coin matched by no record adds no entry: requesting it as well changes nothing. */
  lemma UnmatchedAddsNothing(coins: seq<CoinNames>, c: CoinNames, data: seq<ApiCoin>)
    requires FirstMatch(data, c).None?
    ensures PriceDataOf(coins + [c], data) == PriceDataOf(coins, data)
  {
    assert (coins + [c])[..|coins|] == coins;
  }

  /** `get_coin_price_data`'s loops, with the record list already fetched. */
  method GetCoinPriceData(coins: seq<CoinNames>, data: seq<ApiCoin>) returns (d: Dict<PriceEntry>)
    ensures d == PriceDataOf(coins, data)
  {
    d := Empty();
    for n := 0 to |coins|
      invariant d == PriceDataOf(coins[..n], data)
    {
      var coin := coins[n];
      assert coins[..n + 1][..n] == coins[..n];
      var j := 0;
      while j < |data|
        invariant j <= |data|
        invariant forall k :: 0 <= k < j ==> !Matches(data[k], coin)
      {
        var normalizedId := NormalizeId(data[j].id);
        if normalizedId in coin || data[j].id in coin || data[j].name in coin {
          FirstMatchAt(data, coin, j);
          d := Put(d, normalizedId, EntryOf(data[j]));
          break;
        }
        j := j + 1;
      }
    }
    assert coins[..|coins|] == coins;
  }

  /** The first matching index is the one before which nothing matches. */
  lemma FirstMatchAt(data: seq<ApiCoin>, coin: CoinNames, j: nat)
    requires j < |data| && Matches(data[j], coin)
    requires forall k :: 0 <= k < j ==> !Matches(data[k], coin)
    ensures FirstMatch(data, coin) == Some(j)
  {
    var r := FirstMatch(data, coin);
    assert Matches(data[j], coin);
    assert r.Some? && Matches(data[r.value], coin);
  }

  /** The first price entry, in dict order, whose symbol is `symbol`. */
  function FirstWithSymbol(keys: seq<Key>, entries: map<Key, PriceEntry>, symbol: string): (r: Option<PriceEntry>)
    requires forall k :: k in keys ==> k in entries
    ensures r.None? <==> forall i :: 0 <= i < |keys| ==> entries[keys[i]].symbol != symbol
    ensures r.Some? ==> r.value.symbol == symbol
    ensures r.Some? ==> exists i :: 0 <= i < |keys| && entries[keys[i]] == r.value
                         && forall j :: 0 <= j < i ==> entries[keys[j]].symbol != symbol
  {
    if |keys| == 0 then None
    else if entries[keys[0]].symbol == symbol then Some(entries[keys[0]])
    else
      var r := FirstWithSymbol(keys[1..], entries, symbol);
      if r.Some? then
        var i :| 0 <= i < |keys[1..]| && entries[keys[1..][i]] == r.value
                 && forall j :: 0 <= j < i ==> entries[keys[1..][j]].symbol != symbol;
        assert entries[keys[i + 1]] == r.value;
        r
      else r
  }

  /** `amount * float(price_dict["price"])`. */
  function UsdValue(amount: real, price: real): real {
    amount * price
  }

  /** The dict `get_coin_values_usd` returns for the portfolio symbols `symbols`:
      each symbol with a price entry, valued at the first such entry's price. */
  function ValuesUsdOf(symbols: seq<Key>, amounts: map<Key, real>, prices: Dict<PriceEntry>): (d: Dict<real>)
    requires prices.Valid() && forall k :: k in symbols ==> k in amounts
    ensures d.Valid()
    ensures forall k :: k in d.vals <==> k in symbols && FirstWithSymbol(prices.keys, prices.vals, k).Some?
    ensures forall k :: k in d.vals ==> d.vals[k] == UsdValue(amounts[k], FirstWithSymbol(prices.keys, prices.vals, k).value.price)
  {
    if |symbols| == 0 then Empty()
    else
      var init := ValuesUsdOf(symbols[..|symbols| - 1], amounts, prices);
      var s := symbols[|symbols| - 1];
      assert forall x :: x in symbols <==> x in symbols[..|symbols| - 1] || x == s;
      match FirstWithSymbol(prices.keys, prices.vals, s)
      case None => init
      case Some(e) => Put(init, s, UsdValue(amounts[s], e.price))
  }

  /** The price loop for one portfolio symbol: the first entry with that symbol
      assigns the symbol its value, and the loop stops there. */
  method ValueAtFirstSymbol(d0: Dict<real>, symb: Key, amount: real, prices: Dict<PriceEntry>) returns (d: Dict<real>)
    requires d0.Valid() && prices.Valid()
    ensures d == match FirstWithSymbol(prices.keys, prices.vals, symb)
                 case None => d0
                 case Some(e) => Put(d0, symb, UsdValue(amount, e.price))
  {
    d := d0;
    var j := 0;
    while j < |prices.keys|
      invariant j <= |prices.keys|
      invariant forall k :: 0 <= k < j ==> prices.vals[prices.keys[k]].symbol != symb
    {
      var entry := prices.vals[prices.keys[j]];
      if entry.symbol == symb {
        FirstWithSymbolAt(prices.keys, prices.vals, symb, j);
        d := Put(d, symb, UsdValue(amount, entry.price));
        return;
      }
      j := j + 1;
    }
  }

  /** `get_coin_values_usd`, with the record list already fetched. */
  method GetCoinValuesUsd(coins: seq<CoinNames>, portfolio: Dict<real>, data: seq<ApiCoin>) returns (d: Dict<real>)
    requires portfolio.Valid()
    ensures d == ValuesUsdOf(portfolio.keys, portfolio.vals, PriceDataOf(coins, data))
  {
    var prices := GetCoinPriceData(coins, data);
    d := Empty();
    var symbols := portfolio.keys;
    for n := 0 to |symbols|
      invariant d == ValuesUsdOf(symbols[..n], portfolio.vals, prices)
    {
      var symb := symbols[n];
      assert symbols[..n + 1][..n] == symbols[..n];
      d := ValueAtFirstSymbol(d, symb, portfolio.vals[symb], prices);
    }
    assert symbols[..|symbols|] == symbols;
  }

  lemma {:induction false} FirstWithSymbolAt(keys: seq<Key>, entries: map<Key, PriceEntry>, symbol: string, j: nat)
    requires forall k :: k in keys ==> k in entries
    requires j < |keys| && entries[keys[j]].symbol == symbol
    requires forall k :: 0 <= k < j ==> entries[keys[k]].symbol != symbol
    ensures FirstWithSymbol(keys, entries, symbol) == Some(entries[keys[j]])
  {
    if j > 0 {
      assert entries[keys[0]].symbol != symbol;
      FirstWithSymbolAt(keys[1..], entries, symbol, j - 1);
    }
  }

  /** `get_coin_names`: the id of every record, in API order. */
  function CoinNamesOf(data: seq<ApiCoin>): (names: seq<string>)
    ensures |names| == |data|
    ensures forall i :: 0 <= i < |data| ==> names[i] == data[i].id
  {
    seq(|data|, i requires 0 <= i < |data| => data[i].id)
  }

  /** `get_coin_aliases`: `[id, name, symbol]` for every record, in API order. */
  function CoinAliasesOf(data: seq<ApiCoin>): (aliases: seq<seq<string>>)
    ensures |aliases| == |data|
    ensures forall i :: 0 <= i < |data| ==> aliases[i] == [data[i].id, data[i].name, data[i].symbol]
  {
    seq(|data|, i requires 0 <= i < |data| => [data[i].id, data[i].name, data[i].symbol])
  }

  /** Both lists have one item per record, and each alias list starts with the name
      `get_coin_names` reports for that record. */
  lemma AliasesExtendNames(data: seq<ApiCoin>)
    ensures |CoinAliasesOf(data)| == |CoinNamesOf(data)| == |data|
    ensures forall i :: 0 <= i < |data| ==>
              |CoinAliasesOf(data)[i]| == 3 && CoinAliasesOf(data)[i][0] == CoinNamesOf(data)[i]
  {
  }
}
