/**
 * The ledger of `TradingModule` as a value: a USDC balance and the quantity
 * held of each ticker. Buying and selling are functions from the ledger
 * before the trade to the ledger after it and the trade's outcome; the record
 * the ledger is saved as, and how a record is read back, are given here too.
 */
module Ledger {
  import opened Wrappers
  import opened Valuation

  datatype Account = Account(balance: real, holdings: map<string, real>)

  /** What `buy` and `sell` report: the trade done, or why nothing was done. */
  datatype Outcome =
    | Bought(ticker: string, amount: real, cost: real)
    | Sold(ticker: string, amount: real, revenue: real)
    | PriceUnavailable
    | InsufficientBalance
    | InsufficientHoldings

  datatype Step = Step(account: Account, outcome: Outcome)

  /** The saved form `{"balance": ..., "holdings": {...}}`; a field may be missing from what is read back. */
  datatype Record = Record(balance: Option<real>, holdings: Option<map<string, real>>)

  /** A trade placed against the ledger, with the price the oracle gave for it. */
  datatype Order =
    | BuyOrder(ticker: string, amount: real, price: Option<real>)
    | SellOrder(ticker: string, amount: real, price: Option<real>)

  /** The fee `TradingModule` charges when none is given. */
  const DefaultFee: real := 0.001

  /** What buying `amount` at `price` costs, the fee included. */
  function Cost(amount: real, price: real, fee: real): real {
    amount * price * (1.0 + fee)
  }

  /** What selling `amount` at `price` brings in, the fee deducted. */
  function Revenue(amount: real, price: real, fee: real): real {
    amount * price * (1.0 - fee)
  }

  /** Every ticker other than `t` is held in the same quantity, or not at all, in both. */
  ghost predicate OthersUnchanged(h: map<string, real>, h': map<string, real>, t: string) {
    forall u :: u != t ==> Lookup(h, u) == Lookup(h', u)
  }

  /** The ledger invariants: a non-negative balance and no zero or negative holding. */
  ghost predicate Healthy(a: Account) {
    a.balance >= 0.0 && forall t :: t in a.holdings ==> a.holdings[t] > 0.0
  }

  /** The balance plus what the holdings are worth at `prices`. */
  ghost function PortfolioValue(a: Account, prices: map<string, real>): real {
    a.balance + Worth(a.holdings, prices)
  }

  /**
   * Buy `amount` of `ticker` at `price`: fail when there is no price, fail
   * when the cost exceeds the balance, otherwise pay the cost and add the
   * amount to the holding.
   */
  function Buy(a: Account, ticker: string, amount: real, price: Option<real>, fee: real): (s: Step)
    ensures price.None? ==> s == Step(a, PriceUnavailable)
    ensures price.Some? ==> (s.outcome == InsufficientBalance <==> Cost(amount, price.value, fee) > a.balance)
    ensures s.outcome.Bought? || s.outcome.PriceUnavailable? || s.outcome.InsufficientBalance?
    ensures s.outcome.Bought? <==> price.Some? && Cost(amount, price.value, fee) <= a.balance
    ensures !s.outcome.Bought? ==> s.account == a
    ensures s.outcome.Bought? ==>
      && price.Some?
      && s.outcome == Bought(ticker, amount, Cost(amount, price.value, fee))
      && s.outcome.cost <= a.balance
      && s.account.balance == a.balance - s.outcome.cost
      && Lookup(s.account.holdings, ticker) == Some(Held(a.holdings, ticker) + amount)
      && OthersUnchanged(a.holdings, s.account.holdings, ticker)
  {
    match price
    case None => Step(a, PriceUnavailable)
    case Some(p) =>
      var cost := Cost(amount, p, fee);
      if cost > a.balance then Step(a, InsufficientBalance)
      else
        Step(Account(a.balance - cost, a.holdings[ticker := Held(a.holdings, ticker) + amount]),
             Bought(ticker, amount, cost))
  }

  /**
   * Sell `amount` of `ticker` at `price`: fail when there is no price (this
   * is checked first), fail when less than `amount` is held, otherwise take
   * the amount off the holding, dropping it when it reaches zero, and credit
   * the revenue.
   */
  function Sell(a: Account, ticker: string, amount: real, price: Option<real>, fee: real): (s: Step)
    ensures price.None? ==> s == Step(a, PriceUnavailable)
    ensures price.Some? ==>
      (s.outcome == InsufficientHoldings <==> ticker !in a.holdings || a.holdings[ticker] < amount)
    ensures s.outcome.Sold? || s.outcome.PriceUnavailable? || s.outcome.InsufficientHoldings?
    ensures s.outcome.Sold? <==> price.Some? && ticker in a.holdings && amount <= a.holdings[ticker]
    ensures !s.outcome.Sold? ==> s.account == a
    ensures s.outcome.Sold? ==>
      && price.Some?
      && ticker in a.holdings && amount <= a.holdings[ticker]
      && s.outcome == Sold(ticker, amount, Revenue(amount, price.value, fee))
      && s.account.balance == a.balance + s.outcome.revenue
      && Lookup(s.account.holdings, ticker) ==
           (if a.holdings[ticker] == amount then None else Some(a.holdings[ticker] - amount))
      && OthersUnchanged(a.holdings, s.account.holdings, ticker)
  {
    match price
    case None => Step(a, PriceUnavailable)
    case Some(p) =>
      if ticker !in a.holdings || a.holdings[ticker] < amount then Step(a, InsufficientHoldings)
      else
        var revenue := Revenue(amount, p, fee);
        var left := a.holdings[ticker] - amount;
        Step(Account(a.balance + revenue,
                     if left == 0.0 then a.holdings - {ticker} else a.holdings[ticker := left]),
             Sold(ticker, amount, revenue))
  }

  /** A successful buy keeps the balance non-negative and every holding positive. */
  lemma BuyKeepsHealthy(a: Account, ticker: string, amount: real, price: Option<real>, fee: real)
    requires Healthy(a) && amount > 0.0
    ensures Healthy(Buy(a, ticker, amount, price, fee).account)
  {
    var s := Buy(a, ticker, amount, price, fee);
    if s.outcome.Bought? {
      forall t | t in s.account.holdings
        ensures s.account.holdings[t] > 0.0
      {
        if t != ticker {
          assert Lookup(a.holdings, t) == Lookup(s.account.holdings, t);
        }
      }
    }
  }

  /** A successful sell at a non-negative price keeps the balance non-negative and every holding positive. */
  lemma SellKeepsHealthy(a: Account, ticker: string, amount: real, price: Option<real>, fee: real)
    requires Healthy(a) && amount > 0.0 && 0.0 <= fee < 1.0
    requires price.Some? ==> price.value >= 0.0
    ensures Healthy(Sell(a, ticker, amount, price, fee).account)
  {
    var s := Sell(a, ticker, amount, price, fee);
    if s.outcome.Sold? {
      var p := price.value;
      ProductNonnegative(amount * p, 1.0 - fee);
      forall t | t in s.account.holdings
        ensures s.account.holdings[t] > 0.0
      {
        if t != ticker {
          assert Lookup(a.holdings, t) == Lookup(s.account.holdings, t);
        } else {
          assert Lookup(s.account.holdings, t) == Some(a.holdings[t] - amount);
        }
      }
    }
  }

  /**
   * How the fee splits a trade's notional value. An arithmetic step used by
   * `PayingCostLosesFee` and `TakingRevenueLosesFee`.
   */
  lemma FeeArithmetic(amount: real, price: real, fee: real)
    ensures Cost(amount, price, fee) == amount * price + amount * price * fee
    ensures Revenue(amount, price, fee) == amount * price - amount * price * fee
  {
  }

  /** The ledger after a successful buy; a step of `BuyCostsOnlyTheFee`. */
  lemma BoughtAccount(a: Account, ticker: string, amount: real, price: real, fee: real)
    requires Buy(a, ticker, amount, Some(price), fee).outcome.Bought?
    ensures Buy(a, ticker, amount, Some(price), fee).account
         == Account(a.balance - Cost(amount, price, fee), a.holdings[ticker := Held(a.holdings, ticker) + amount])
  {
  }

  /** The ledger after a successful sell; a step of `SellCostsOnlyTheFee`. */
  lemma SoldAccount(a: Account, ticker: string, amount: real, price: real, fee: real)
    requires Sell(a, ticker, amount, Some(price), fee).outcome.Sold?
    ensures ticker in a.holdings
    ensures var left := a.holdings[ticker] - amount;
      Sell(a, ticker, amount, Some(price), fee).account
      == Account(a.balance + Revenue(amount, price, fee), if left == 0.0 then a.holdings - {ticker} else a.holdings[ticker := left])
  {
  }

  /**
   * Paying the cost while the holdings gain `amount * price` in worth loses
   * exactly the fee. An arithmetic step of `BuyCostsOnlyTheFee`, stated over
   * plain numbers so that no valuation is in scope while it is proved.
   */
  lemma PayingCostLosesFee(balance: real, worthAfter: real, worth: real, amount: real, price: real, fee: real)
    requires worthAfter == worth + amount * price
    ensures balance - Cost(amount, price, fee) + worthAfter == balance + worth - amount * price * fee
  {
    FeeArithmetic(amount, price, fee);
  }

  /**
   * Crediting the revenue while the holdings lose `amount * price` in worth
   * loses exactly the fee. An arithmetic step of `SellCostsOnlyTheFee`, stated
   * over plain numbers so that no valuation is in scope while it is proved.
   */
  lemma TakingRevenueLosesFee(balance: real, worthAfter: real, worth: real, amount: real, price: real, fee: real)
    requires worthAfter == worth - amount * price
    ensures balance + Revenue(amount, price, fee) + worthAfter == balance + worth - amount * price * fee
  {
    FeeArithmetic(amount, price, fee);
  }

  /**
   * Valued at the price the trade ran at, a successful buy lowers the
   * portfolio value by exactly the fee: `amount * price * fee`.
   */
  lemma BuyCostsOnlyTheFee(a: Account, ticker: string, amount: real, price: real, fee: real, prices: map<string, real>)
    requires ticker in prices && prices[ticker] == price
    requires Buy(a, ticker, amount, Some(price), fee).outcome.Bought?
    ensures PortfolioValue(Buy(a, ticker, amount, Some(price), fee).account, prices)
         == PortfolioValue(a, prices) - amount * price * fee
  {
    BoughtAccount(a, ticker, amount, price, fee);
    BoughtValue(a, ticker, amount, price, fee, prices);
  }

  /** The value of the ledger a successful buy leaves; a step of `BuyCostsOnlyTheFee`. */
  lemma BoughtValue(a: Account, ticker: string, amount: real, price: real, fee: real, prices: map<string, real>)
    requires ticker in prices && prices[ticker] == price
    ensures PortfolioValue(Account(a.balance - Cost(amount, price, fee), a.holdings[ticker := Held(a.holdings, ticker) + amount]), prices)
         == PortfolioValue(a, prices) - amount * price * fee
  {
    var h := a.holdings;
    WorthAfterAdd(h, prices, ticker, amount, price);
    PayingCostLosesFee(a.balance, Worth(h[ticker := Held(h, ticker) + amount], prices), Worth(h, prices), amount, price, fee);
  }

  /**
   * Valued at the price the trade ran at, a successful sell lowers the
   * portfolio value by exactly the fee: `amount * price * fee`.
   */
  lemma SellCostsOnlyTheFee(a: Account, ticker: string, amount: real, price: real, fee: real, prices: map<string, real>)
    requires ticker in prices && prices[ticker] == price
    requires Sell(a, ticker, amount, Some(price), fee).outcome.Sold?
    ensures PortfolioValue(Sell(a, ticker, amount, Some(price), fee).account, prices)
         == PortfolioValue(a, prices) - amount * price * fee
  {
    SoldAccount(a, ticker, amount, price, fee);
    SoldValue(a, ticker, amount, price, fee, prices);
  }

  /** The value of the ledger a successful sell leaves; a step of `SellCostsOnlyTheFee`. */
  lemma SoldValue(a: Account, ticker: string, amount: real, price: real, fee: real, prices: map<string, real>)
    requires ticker in a.holdings && ticker in prices && prices[ticker] == price
    ensures var left := a.holdings[ticker] - amount;
      PortfolioValue(Account(a.balance + Revenue(amount, price, fee),
                             if left == 0.0 then a.holdings - {ticker} else a.holdings[ticker := left]), prices)
      == PortfolioValue(a, prices) - amount * price * fee
  {
    var h := a.holdings;
    WorthAfterTake(h, prices, ticker, amount, price);
    var left := h[ticker] - amount;
    TakingRevenueLosesFee(a.balance, Worth(if left == 0.0 then h - {ticker} else h[ticker := left], prices),
      Worth(h, prices), amount, price, fee);
  }

  /** One order against the ledger. */
  function Apply(a: Account, o: Order, fee: real): Step {
    match o
    case BuyOrder(t, amount, price) => Buy(a, t, amount, price, fee)
    case SellOrder(t, amount, price) => Sell(a, t, amount, price, fee)
  }

  /** The ledger after the orders, one after the other; a failed order changes nothing. */
  function Run(a: Account, orders: seq<Order>, fee: real): Account
    decreases |orders|
  {
    if orders == [] then a else Run(Apply(a, orders[0], fee).account, orders[1..], fee)
  }

  /** Positive amounts and non-negative prices. */
  ghost predicate Sensible(o: Order) {
    o.amount > 0.0 && (o.price.Some? ==> o.price.value >= 0.0)
  }

  /** Solvency and no dust hold after every sequence of buys and sells. */
  lemma {:induction false} RunKeepsHealthy(a: Account, orders: seq<Order>, fee: real)
    requires Healthy(a) && 0.0 <= fee < 1.0
    requires forall i :: 0 <= i < |orders| ==> Sensible(orders[i])
    ensures Healthy(Run(a, orders, fee))
    decreases |orders|
  {
    if orders != [] {
      var o := orders[0];
      match o {
        case BuyOrder(t, amount, price) => BuyKeepsHealthy(a, t, amount, price, fee);
        case SellOrder(t, amount, price) => SellKeepsHealthy(a, t, amount, price, fee);
      }
      assert forall i :: 0 <= i < |orders[1..]| ==> orders[1..][i] == orders[i + 1];
      RunKeepsHealthy(Apply(a, o, fee).account, orders[1..], fee);
    }
  }

  /** The worked figures: at the default fee, 10 at 100 costs 1001 and brings in 999; 100 cannot buy them. */
  lemma FeeExamples()
    ensures Buy(Account(2000.0, map[]), "X", 10.0, Some(100.0), DefaultFee)
         == Step(Account(999.0, map["X" := 10.0]), Bought("X", 10.0, 1001.0))
    ensures Sell(Account(0.0, map["X" := 10.0]), "X", 10.0, Some(100.0), DefaultFee)
         == Step(Account(999.0, map[]), Sold("X", 10.0, 999.0))
    ensures Buy(Account(100.0, map[]), "X", 10.0, Some(100.0), DefaultFee)
         == Step(Account(100.0, map[]), InsufficientBalance)
    ensures Sell(Account(100.0, map[]), "Y", 1.0, Some(100.0), DefaultFee)
         == Step(Account(100.0, map[]), InsufficientHoldings)
  {
    assert map["X" := 10.0] - {"X"} == map[];
  }

  /** As written, a negative sell amount passes the holdings check and drives the balance below zero. */
  lemma SellNegativeAmountOverdraws()
    ensures var s := Sell(Account(0.0, map["X" := 1.0]), "X", -1.0, Some(100.0), DefaultFee);
      s.outcome.Sold? && s.account.balance < 0.0 && s.account.holdings["X"] == 2.0
  {
  }

  /** As written, a negative buy amount is paid out to the balance and leaves a negative holding. */
  lemma BuyNegativeAmountShorts()
    ensures var s := Buy(Account(0.0, map[]), "X", -1.0, Some(100.0), DefaultFee);
      s.outcome.Bought? && s.account.balance > 0.0 && s.account.holdings["X"] == -1.0
  {
  }

  /** The record `save_to_redis` and `export_to_json` write. */
  function Export(a: Account): (r: Record)
    ensures r.balance == Some(a.balance) && r.holdings == Some(a.holdings)
  {
    Record(Some(a.balance), Some(a.holdings))
  }

  /**
   * Read a record into the ledger (`import_from_json`, and `load_from_redis`
   * when the key is set): a missing balance keeps the current one, missing
   * holdings become empty.
   */
  function Import(a: Account, r: Record): (b: Account)
    ensures b.balance == (if r.balance.Some? then r.balance.value else a.balance)
    ensures b.holdings == (if r.holdings.Some? then r.holdings.value else map[])
  {
    Account(r.balance.GetOr(a.balance), r.holdings.GetOr(map[]))
  }

  /** `load_from_redis`: nothing happens when the key is absent or empty. */
  function Load(a: Account, stored: Option<Record>): (b: Account)
    ensures stored.None? ==> b == a
    ensures stored.Some? ==> b == Import(a, stored.value)
  {
    match stored
    case None => a
    case Some(r) => Import(a, r)
  }

  /** Exporting and importing into any ledger reproduces the exported one. */
  lemma ExportImportRoundTrip(a: Account, into: Account)
    ensures Import(into, Export(a)) == a
  {
  }

  /** A module started after a save, whatever its initial balance, comes back with the saved ledger. */
  lemma SaveLoadRoundTrip(a: Account, initialBalance: real)
    ensures Load(Account(initialBalance, map[]), Some(Export(a))) == a
  {
  }
}
