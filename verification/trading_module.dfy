/**
 * `TradingModule`: the engine that holds the ledger in its fields, trades
 * against Kraken prices and writes the ledger through to Redis after every
 * successful change.
 *
 * The Kraken replies are parameters (`response`), already decoded; the Redis
 * key "trading_data" is the ghost field `stored`; a JSON file is a `Record`.
 */
module TradeSimulator {
  import opened Wrappers
  import opened Pairs
  import opened Valuation
  import opened Ledger

  class TradingModule {
    /** USDC available. */
    var balance: real
    /** Quantity held per ticker. */
    var holdings: map<string, real>
    /** The fraction of a trade's notional value charged as fee. */
    const fee: real
    /** What the Redis key "trading_data" holds; `None` while it is unset. */
    ghost var stored: Option<Record>

    ghost predicate Valid() {
      0.0 <= fee < 1.0
    }

    /** `get_status`: the balance and the holdings, read without any effect. */
    function GetStatus(): (a: Account)
      reads this
      ensures a.balance == balance && a.holdings == holdings
    {
      Account(balance, holdings)
    }

    /** `compute_wallet_usdc`: the USDC balance, read without any effect. */
    function ComputeWalletUsdc(): (r: real)
      reads this
      ensures r == GetStatus().balance
    {
      balance
    }

    /**
     * `__init__`: start from `initialBalance` and no holdings, then load
     * whatever `data` the Redis key holds.
     */
    constructor (initialBalance: real, tradingFee: real, data: Option<Record>)
      requires 0.0 <= tradingFee < 1.0
      ensures Valid() && fee == tradingFee
      ensures stored == data
      ensures GetStatus() == Load(Account(initialBalance, map[]), data)
    {
      balance := initialBalance;
      fee := tradingFee;
      holdings := map[];
      stored := data;
      new;
      LoadFromRedis(data);
    }

    /** `save_to_redis`: overwrite the stored record with the current ledger. */
    method SaveToRedis()
      modifies this`stored
      ensures stored == Some(Export(GetStatus()))
    {
      stored := Some(Export(GetStatus()));
    }

    /** `load_from_redis`: read back what the key holds, if anything. */
    method LoadFromRedis(data: Option<Record>)
      requires data == stored
      modifies this`balance, this`holdings
      ensures GetStatus() == Load(old(GetStatus()), data)
    {
      if data.Some? {
        balance := data.value.balance.GetOr(balance);
        holdings := data.value.holdings.GetOr(map[]);
      }
    }

    /** `export_to_json`: the record written to the file. */
    method ExportToJson() returns (r: Record)
      ensures r == Export(GetStatus())
      ensures forall into :: Import(into, r) == GetStatus()
    {
      r := Record(Some(balance), Some(holdings));
      forall into {
        ExportImportRoundTrip(GetStatus(), into);
      }
    }

    /** `import_from_json`: replace the ledger with the file's record and save it. */
    method ImportFromJson(data: Record)
      modifies this
      ensures GetStatus() == Import(old(GetStatus()), data)
      ensures stored == Some(Export(GetStatus()))
    {
      balance := data.balance.GetOr(balance);
      holdings := data.holdings.GetOr(map[]);
      SaveToRedis();
    }

    /** `fetch_kraken_prices`: the prices of the held tickers found in the batch reply. */
    method FetchKrakenPrices(response: Option<seq<(string, real)>>) returns (prices: map<string, real>)
      ensures prices == PricesFor(holdings.Keys, response)
    {
      prices := map[];
      if holdings != map[] && response.Some? {
        var entries := response.value;
        for i := 0 to |entries|
          invariant prices == QuotedPrices(entries[..i])
        {
          QuotedPricesExtend(entries, i);
          prices := prices[StripQuote(entries[i].0) := entries[i].1];
        }
        assert entries[..|entries|] == entries;
      }
    }

    /**
     * `compute_ticker_sum_usdc`: the balance plus quantity times price for
     * every held ticker the batch reply prices; unpriced tickers add nothing.
     */
    method ComputeTickerSumUsdc(response: Option<seq<(string, real)>>) returns (total: real)
      ensures total == PortfolioValue(GetStatus(), PricesFor(holdings.Keys, response))
    {
      var prices := FetchKrakenPrices(response);
      total := balance;
      var rest := holdings;
      while rest != map[]
        invariant total + Worth(rest, prices) == balance + Worth(holdings, prices)
        decreases rest.Keys
      {
        var t :| t in rest;
        RunningTotal(total, rest, prices, t, balance + Worth(holdings, prices));
        if t in prices {
          total := total + rest[t] * prices[t];
        }
        rest := rest - {t};
      }
      WorthUnpriced(rest, prices);
    }

    /**
     * `buy`: price the ticker from the reply, then trade as `Ledger.Buy`
     * says, saving the ledger when the trade is done.
     */
    method Buy(ticker: string, amount: real, response: Option<map<string, Option<real>>>) returns (outcome: Outcome)
      requires amount > 0.0
      modifies this
      ensures var s := Ledger.Buy(old(GetStatus()), ticker, amount, TickerPrice(ticker, response), fee);
        GetStatus() == s.account && outcome == s.outcome
      ensures stored == if outcome.Bought? then Some(Export(GetStatus())) else old(stored)
      ensures old(Healthy(GetStatus())) ==> Healthy(GetStatus())
    {
      ghost var before := GetStatus();
      var price := TickerPrice(ticker, response);
      if Healthy(before) {
        BuyKeepsHealthy(before, ticker, amount, price, fee);
      }
      if price.None? {
        return PriceUnavailable;
      }
      var cost := amount * price.value * (1.0 + fee);
      if cost > balance {
        return InsufficientBalance;
      }
      balance := balance - cost;
      holdings := holdings[ticker := Held(holdings, ticker) + amount];
      SaveToRedis();
      return Bought(ticker, amount, cost);
    }

    /**
     * `sell`: price the ticker from the reply, then trade as `Ledger.Sell`
     * says, saving the ledger when the trade is done.
     */
    method Sell(ticker: string, amount: real, response: Option<map<string, Option<real>>>) returns (outcome: Outcome)
      requires Valid() && amount > 0.0
      modifies this
      ensures var s := Ledger.Sell(old(GetStatus()), ticker, amount, TickerPrice(ticker, response), fee);
        GetStatus() == s.account && outcome == s.outcome
      ensures stored == if outcome.Sold? then Some(Export(GetStatus())) else old(stored)
      ensures old(Healthy(GetStatus())) && NonNegativeQuote(ticker, response) ==> Healthy(GetStatus())
    {
      ghost var before := GetStatus();
      var price := TickerPrice(ticker, response);
      if Healthy(before) && NonNegativeQuote(ticker, response) {
        SellKeepsHealthy(before, ticker, amount, price, fee);
      }
      if price.None? {
        return PriceUnavailable;
      }
      if ticker !in holdings || holdings[ticker] < amount {
        return InsufficientHoldings;
      }
      var revenue := amount * price.value * (1.0 - fee);
      balance := balance + revenue;
      holdings := holdings[ticker := holdings[ticker] - amount];
      if holdings[ticker] == 0.0 {
        holdings := holdings - {ticker};
      }
      SaveToRedis();
      return Sold(ticker, amount, revenue);
    }
  }

  /** The reply quotes the ticker at no negative price. */
  ghost predicate NonNegativeQuote(ticker: string, response: Option<map<string, Option<real>>>) {
    TickerPrice(ticker, response).Some? ==> TickerPrice(ticker, response).value >= 0.0
  }
}
