# TradingModule ledger engine, modelled in Dafny

This project models the ledger engine `TradingModule` of an off-chain crypto
trading simulator. The engine keeps a USDC `balance` and a `holdings` map from
ticker to quantity. It buys and sells at the last-trade price Kraken quotes for
`<ticker>USDC`, charging a fixed fractional fee on every trade, and drops a
holding that reaches exactly zero. It values the portfolio from a batch
quote that may price only some tickers. After every successful trade or import
it writes `{balance, holdings}` to the Redis key `trading_data`, and it reads
that key back at start-up. It also exports and imports the same record as a
JSON file.

Layout:

- `wrappers.dfy` (`Wrappers`): `Option` and map lookup.
- `pairs.dfy` (`Pairs`): the pair naming `<ticker>USDC` and how prices are read from Kraken replies.
- `valuation.dfy` (`Valuation`): `Worth`, the value of holdings at a partial price map. It is the sum, in no particular order, of `quantity * price` over the held tickers that have a price. The file also holds the algebra of that sum.
- `ledger.dfy` (`Ledger`): the ledger as a value. It holds buy, sell, the saved record, import and load. Its lemmas cover the invariants, the fee, the round trips and sequences of trades.
- `trading_module.dfy` (`TradeSimulator`): the class `TradingModule`. Its fields are updated in place. Each mutator's postcondition ties the new state to the `Ledger` function of the old state. Every successful buy, sell or import overwrites the ghost field `stored`, which stands for the Redis key.

Numbers are `real`: the ledger arithmetic is exact here, where the source uses
Python floats. The Kraken replies are parameters, already decoded from JSON:
- a single-ticker reply is `Option<map<pair, Option<real>>>`, where `None` means a non-200 status and an inner `None` means a missing or non-numeric price;
- a batch reply is `Option<seq<(pair, real)>>`, whose entries are in reply order.

## Model

| member | source | states |
|---|---|---|
| `Pairs.StripQuote` | trade_simulator.py:65 | `replace("USDC", "")` never lengthens a name. It returns a name without "USDC" unchanged, and shortens one with "USDC" by at least four characters. |
| `Pairs.StripPairName` | trade_simulator.py:59-71 | Stripping "USDC" from `ticker + "USDC"` gives back `ticker` whenever the ticker itself contains no "USDC". |
| `Pairs.StripPairNameNeedsPlainTicker` | trade_simulator.py:65 | That hypothesis is needed: the pair of "USDCBTC" strips to "BTC". |
| `Pairs.TickerPrice` | trade_simulator.py:69-78 | The single-ticker fetch yields a price exactly when the reply is a 200, it has the entry `<ticker>USDC`, and that entry has a numeric price. The price is that entry's value; in every other case the result is `None`. |
| `Pairs.QuotedPrices` | trade_simulator.py:64-65 | The batch price map has a key for the stripped name of every reply entry, and no other key. |
| `Pairs.QuotedPricesLastWins` | trade_simulator.py:64-65 | When two entries strip to the same ticker, the map holds the price of the later one. |
| `Valuation.WorthRemove` | trade_simulator.py:88-90 | The valuation sum does not depend on the order the tickers are visited in. Any held ticker's contribution can be taken out first. |
| `Valuation.SumRemove` | trade_simulator.py:88-90 | The sum of the per-ticker values is the same whichever ticker is taken out first, so the order of the dictionary does not matter. |
| `Valuation.RunningTotal` | trade_simulator.py:88-91 | One loop step keeps the running total plus the worth of the tickers still to visit equal to the final value. A priced ticker moves `quantity * price` into the total; an unpriced one moves nothing. |
| `Valuation.WorthAfterAdd` | trade_simulator.py:111 | Adding `amount` to a ticker quoted at `price` (from 0 when unheld) raises the holdings' worth by exactly `amount * price`. |
| `Valuation.WorthAfterTake` | trade_simulator.py:126-128 | Taking `amount` off a ticker quoted at `price`, and deleting the entry when it reaches 0, lowers the holdings' worth by exactly `amount * price`. |
| `Valuation.WorthUnpriced` | trade_simulator.py:88-90 | Holdings none of which has a price are worth 0. A missing price is skipped and is not an error. |
| `Valuation.WorthNonnegative` | trade_simulator.py:84-91 | Non-negative quantities at non-negative prices are worth a non-negative amount. |
| `Valuation.PartialPricingExample` | trade_simulator.py:88-90 | Holdings {A: 1, B: 1} priced only at A = 50 are worth 50. |
| `Ledger.Buy` | trade_simulator.py:100-113 | A missing price is checked first and gives `PriceUnavailable`. Then, with a price, `InsufficientBalance` is returned exactly when `amount * price * (1 + fee)` exceeds the balance. The buy succeeds exactly when there is a price and the cost is at most the balance. Every failure leaves the ledger unchanged. On success: the balance drops by the cost; the ticker holds its old quantity (0 if absent) plus `amount`; every other ticker is unchanged. |
| `Ledger.Sell` | trade_simulator.py:115-131 | A missing price is checked before the holdings and wins over them. Then `InsufficientHoldings` is returned exactly when the ticker is absent or held below `amount`, so nothing can be sold short. The sell succeeds exactly when there is a price and at least `amount` is held. Every failure leaves the ledger unchanged. On success: the balance rises by `amount * price * (1 - fee)`; the ticker's quantity drops by `amount` and the entry is removed exactly when that reaches 0; every other ticker is unchanged. |
| `Ledger.BuyKeepsHealthy` | trade_simulator.py:106-111 | With a positive amount, a buy keeps the balance non-negative and every holding positive. |
| `Ledger.SellKeepsHealthy` | trade_simulator.py:121-128 | With a positive amount, a non-negative price and a fee below 1, a sell keeps the balance non-negative and every holding positive. |
| `Ledger.BuyCostsOnlyTheFee` | trade_simulator.py:106-111 | Valued at the trade's own price, a successful buy lowers balance plus holdings value by exactly `amount * price * fee`. |
| `Ledger.SellCostsOnlyTheFee` | trade_simulator.py:124-128 | Valued at the trade's own price, a successful sell lowers balance plus holdings value by exactly `amount * price * fee`. |
| `Ledger.RunKeepsHealthy` | trade_simulator.py:100-131 | Take any sequence of buys and sells, each with a positive amount and a non-negative price, and a fee in [0, 1). Solvency and the absence of zero or negative holdings then hold after every one of them. |
| `Ledger.FeeExamples` | trade_simulator.py:106-128 | At the default fee 0.001, buying 10 at 100 costs 1001 and selling 10 at 100 yields 999, which empties the holding. With a balance of 100 that buy fails and changes nothing. Selling an unheld ticker fails and changes nothing. |
| `Ledger.SellNegativeAmountOverdraws` | trade_simulator.py:121-126 | As written, selling -1 passes the holdings check, drives the balance below 0 and raises the holding. |
| `Ledger.BuyNegativeAmountShorts` | trade_simulator.py:106-111 | As written, buying -1 with a zero balance succeeds, credits the balance and leaves a holding of -1. |
| `Ledger.Export` | trade_simulator.py:28-31 | The saved and exported record carries the balance and the holdings, both present. |
| `Ledger.Import` | trade_simulator.py:47-52 | Reading a record takes its balance, or keeps the current balance when that field is missing. It takes its holdings, or resets them to empty when that field is missing. |
| `Ledger.Load` | trade_simulator.py:34-40 | An absent key leaves the ledger as it was. A present key is read as an import. |
| `Ledger.ExportImportRoundTrip` | trade_simulator.py:42-53 | Exporting and then importing into any ledger reproduces the exported ledger. |
| `Ledger.SaveLoadRoundTrip` | trade_simulator.py:26-40 | A module started after a save comes back with the saved ledger, whatever its configured initial balance. |
| `TradeSimulator.TradingModule.GetStatus` | trade_simulator.py:93-98 | The status is the current balance and holdings. It is a function, so it has no effect. |
| `TradeSimulator.TradingModule.ComputeWalletUsdc` | trade_simulator.py:80-82 | The wallet is the status's balance. It is read without any effect. |
| `TradeSimulator.TradingModule.constructor` | trade_simulator.py:14-24 | The module starts from the initial balance and empty holdings, then loads the stored record. The fee is the one given. The stored record is untouched. |
| `TradeSimulator.TradingModule.SaveToRedis` | trade_simulator.py:26-32 | The stored record becomes the export of the current ledger, and nothing else changes. |
| `TradeSimulator.TradingModule.LoadFromRedis` | trade_simulator.py:34-40 | The new ledger is `Load` of the old one with what the key holds. The stored record is unchanged. |
| `TradeSimulator.TradingModule.ExportToJson` | trade_simulator.py:42-45 | The file record is the export of the current ledger. Importing it into any ledger gives the current ledger back. |
| `TradeSimulator.TradingModule.ImportFromJson` | trade_simulator.py:47-53 | The ledger becomes `Import` of the old ledger with the file record. The stored record is then the new ledger's export, so store and file agree. |
| `TradeSimulator.TradingModule.FetchKrakenPrices` | trade_simulator.py:55-67 | With no holdings, or a non-200 reply, the result is empty. Otherwise it is the reply's prices under stripped names, collected by a loop over the entries. |
| `TradeSimulator.TradingModule.ComputeTickerSumUsdc` | trade_simulator.py:84-91 | The loop returns the balance plus `quantity * price` for every held ticker the batch reply prices. Tickers without a price contribute nothing. |
| `TradeSimulator.TradingModule.Buy` | trade_simulator.py:100-113 | The new state and the outcome are `Ledger.Buy` at the price fetched for `<ticker>USDC`. The store is overwritten exactly when the buy succeeds. A healthy ledger stays healthy. |
| `TradeSimulator.TradingModule.Sell` | trade_simulator.py:115-131 | The new state and the outcome are `Ledger.Sell` at the price fetched for `<ticker>USDC`. The store is overwritten exactly when the sell succeeds. A healthy ledger stays healthy when the quote is not negative. |

## Left out

- TradeSimulator.TradingModule.Buy: requires `amount > 0`, which neither the engine nor its HTTP caller checks. Negative amounts are exhibited under Findings.
- TradeSimulator.TradingModule.Sell: requires `amount > 0` and a fee in [0, 1). Neither is checked by the source. The fee is 0.001 unless a caller passes another.
- TradeSimulator.TradingModule.constructor: requires a fee in [0, 1). The source accepts any fee.
- Balance non-negative and holdings positive (`Ledger.Healthy`) are not a class invariant. Load and import copy whatever record they read without validating it. The model proves these properties are preserved, not that they always hold.
- The HTTP requests to Kraken, status codes other than 200 (beyond "no reply"), request exceptions and JSON decoding are left out. A reply is a parameter holding the decoded `result` object.
- In the batch fetch, a malformed entry raises an exception out of `fetch_kraken_prices`. This is not modelled: batch entries are assumed to carry a price.
- The comma-joined pair list in the batch request URL (trade_simulator.py:59) only forms the query string and is not modelled.
- The Redis client is external, so its reads and writes are not modelled. So are write failures, and a failed write that keeps the in-memory change. The key is the ghost field `stored`, and the value read at start-up is a constructor parameter. An empty string in the key counts as absent.
- File I/O and `json.dump`/`json.load` are not modelled: a file is a `Record` whose fields may be missing. Missing files, unreadable JSON and fields of the wrong type are not modelled.
- The result strings ("Bought 10 BTC for 1001.0 USDC", the error texts) are not modelled. The `Outcome` datatype carries the same facts; float formatting is not modelled.
- Float rounding is not modelled: all arithmetic is over `real`. In particular, the exact-zero test on a sold-out holding is exact here.
- `get_status` returns the live `holdings` dict, not a copy. That aliasing is not modelled: the status is a value.
- Concurrency is not modelled. The source has no locking, and a lost update between two concurrent buys is outside a sequential model.
- The HTTP routes, templates, static files and the Redis TTL caches of the web layer are not part of this model. Neither is the request model in dataclass/trade.py, which has no behaviour.
- Valuation fetches fresh prices on every call; no price cache is modelled, because the engine has none.
- A failed store write raises out of buy, sell or import after the in-memory change has been made. The model does not have this path: the write always succeeds.
- A ticker may be any string, the empty one included: the engine does not validate it.
- A single-ticker reply entry whose price does not parse yields no price (`TickerPrice` is `None`), as the engine catches that error and returns nothing.

## Findings

| source | as written | input that shows it | evidently intended | confidence | as-written member | corrected member |
|---|---|---|---|---|---|---|
| trade_simulator.py:121-126 | `sell` never checks that `amount` is positive. A negative amount passes `holdings[t] < amount` and the revenue is negative. | With balance 0 and holdings {X: 1}, POST `/sell` with ticker X and amount -1 at price 100 (main.py:72-75 passes the form value through). The balance becomes -99.9 and the holding 2. | Reject non-positive amounts, so that the balance stays non-negative. | medium, not executed | `Ledger.SellNegativeAmountOverdraws` | `TradeSimulator.TradingModule.Sell` |
| trade_simulator.py:106-111 | `buy` never checks that `amount` is positive. A negative amount has a negative cost, which always passes the balance check. | With balance 0 and no holdings, POST `/buy` with ticker X and amount -1 at price 100 (main.py:66-69). The balance becomes 100.1 and the holding -1. | Reject non-positive amounts, so that no holding is zero or negative. | medium, not executed | `Ledger.BuyNegativeAmountShorts` | `TradeSimulator.TradingModule.Buy` |
