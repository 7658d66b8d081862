/**
 * The Kraken naming convention and the shape of its price responses.
 *
 * A ticker such as "BTC" is quoted under the pair "BTCUSDC". A single-ticker
 * query looks the pair name up in the response; a batch query turns every pair
 * of the response back into a ticker by deleting every "USDC" in its name.
 * The HTTP request and the JSON decoding are not modelled: a response is given
 * as the decoded `result` object, `None` standing for a non-200 status.
 */
module Pairs {
  import opened Wrappers

  /** The quote currency every pair is priced in. */
  const Quote: string := "USDC"

  /** The pair a ticker is traded under. */
  function PairName(ticker: string): string {
    ticker + Quote
  }

  /** True when "USDC" occurs somewhere in `s`. */
  predicate HasQuote(s: string) {
    |s| >= 4 && (s[..4] == Quote || HasQuote(s[1..]))
  }

  /**
   * `s.replace("USDC", "")`: every occurrence of "USDC" deleted, scanning
   * from the left as Python does.
   */
  function StripQuote(s: string): (r: string)
    ensures |r| <= |s|
    ensures !HasQuote(s) ==> r == s
    ensures HasQuote(s) ==> |r| <= |s| - 4
  {
    if |s| < 4 then s
    else if s[..4] == Quote then StripQuote(s[4..])
    else [s[0]] + StripQuote(s[1..])
  }

  /** Stripping the quote from a pair name gives back a ticker that does not itself contain "USDC". */
  lemma {:induction false} StripPairName(ticker: string)
    requires !HasQuote(ticker)
    ensures StripQuote(PairName(ticker)) == ticker
  {
    var s := PairName(ticker);
    if ticker == [] {
      assert s == Quote;
      assert s[4..] == [];
    } else {
      if |ticker| < 4 {
        // "USDC" has no proper prefix that is also a suffix, so no occurrence
        // can start inside a ticker shorter than four characters.
        var k := |ticker|;
        assert s[k] == 'U';
        assert s[..4][k] == s[k];
      } else {
        assert s[..4] == ticker[..4];
      }
      assert s[1..] == PairName(ticker[1..]);
      StripPairName(ticker[1..]);
    }
  }

  /** Without that hypothesis the round trip fails: the pair of "USDCBTC" strips to "BTC". */
  lemma StripPairNameNeedsPlainTicker()
    ensures HasQuote("USDCBTC")
    ensures StripQuote(PairName("USDCBTC")) == "BTC"
  {
    assert "USDCBTC"[..4] == Quote;
    assert StripQuote("USDC") == "" by { assert "USDC"[..4] == Quote; }
    assert StripQuote("CUSDC") == "C" by { assert "CUSDC"[1..] == "USDC"; }
    assert StripQuote("TCUSDC") == "TC" by { assert "TCUSDC"[1..] == "CUSDC"; }
    assert StripQuote("BTCUSDC") == "BTC" by { assert "BTCUSDC"[1..] == "TCUSDC"; }
    assert PairName("USDCBTC") == "USDCBTCUSDC";
    assert "USDCBTCUSDC"[..4] == Quote && "USDCBTCUSDC"[4..] == "BTCUSDC";
  }

  /**
   * The price a single-ticker query yields (`fetch_kraken_ticker_price`):
   * `response` is the decoded `result` object of a 200 reply, or `None` for
   * any other status; an entry is `None` when its last-trade price is missing
   * or is not a number.
   */
  function TickerPrice(ticker: string, response: Option<map<string, Option<real>>>): (price: Option<real>)
    ensures price.Some? <==>
      response.Some? && PairName(ticker) in response.value && response.value[PairName(ticker)].Some?
    ensures price.Some? ==> price == response.value[PairName(ticker)]
  {
    match response
    case None => None
    case Some(result) => if PairName(ticker) in result then result[PairName(ticker)] else None
  }

  /**
   * The ticker-to-price map a batch reply yields, the entries taken in the
   * order the reply lists them; a later pair that strips to the same ticker
   * overwrites an earlier one.
   */
  function QuotedPrices(entries: seq<(string, real)>): (prices: map<string, real>)
    ensures forall i :: 0 <= i < |entries| ==> StripQuote(entries[i].0) in prices
    ensures forall k :: k in prices ==> exists i :: 0 <= i < |entries| && StripQuote(entries[i].0) == k
  {
    if entries == [] then map[]
    else
      var n := |entries| - 1;
      assert forall i :: 0 <= i < n ==> entries[..n][i] == entries[i];
      QuotedPrices(entries[..n])[StripQuote(entries[n].0) := entries[n].1]
  }

  /** Taking one more entry of the reply records its price under its ticker. */
  lemma QuotedPricesExtend(entries: seq<(string, real)>, i: nat)
    requires i < |entries|
    ensures QuotedPrices(entries[..i + 1]) == QuotedPrices(entries[..i])[StripQuote(entries[i].0) := entries[i].1]
  {
    assert entries[..i + 1][..i] == entries[..i];
  }

  /** The price recorded for a ticker is that of the last entry naming it. */
  lemma {:induction false} QuotedPricesLastWins(entries: seq<(string, real)>, i: nat)
    requires i < |entries| && LastFor(entries, i)
    ensures QuotedPrices(entries)[StripQuote(entries[i].0)] == entries[i].1
  {
    var n := |entries| - 1;
    if i < n {
      var earlier := entries[..n];
      assert earlier[i] == entries[i];
      forall j | i < j < n
        ensures StripQuote(earlier[j].0) != StripQuote(earlier[i].0)
      {
        assert earlier[j] == entries[j];
      }
      assert StripQuote(entries[n].0) != StripQuote(entries[i].0);
      QuotedPricesLastWins(earlier, i);
    }
  }

  /** No entry after the `i`-th names the same ticker. */
  ghost predicate LastFor(entries: seq<(string, real)>, i: nat)
    requires i < |entries|
  {
    forall j :: i < j < |entries| ==> StripQuote(entries[j].0) != StripQuote(entries[i].0)
  }

  /**
   * What `fetch_kraken_prices` returns: nothing when no ticker is held (no
   * request is made) or the reply is not a 200, else the prices of the reply.
   */
  function PricesFor(held: set<string>, response: Option<seq<(string, real)>>): map<string, real> {
    if held == {} || response.None? then map[] else QuotedPrices(response.value)
  }
}
