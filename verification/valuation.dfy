/**
 * What the held tickers are worth at a (possibly partial) price map: every
 * held ticker that has a price contributes quantity times price, and a ticker
 * without a price contributes nothing.
 */
module Valuation {

  /** The value of each held ticker that has a price; unpriced tickers are absent. */
  function Priced(h: map<string, real>, prices: map<string, real>): (c: map<string, real>)
    ensures c.Keys == h.Keys * prices.Keys
    ensures forall t :: t in c ==> c[t] == h[t] * prices[t]
  {
    map t | t in h.Keys * prices.Keys :: h[t] * prices[t]
  }

  lemma PricedWithout(h: map<string, real>, prices: map<string, real>, t: string)
    ensures Priced(h - {t}, prices) == Priced(h, prices) - {t}
  {
    var a, b := Priced(h - {t}, prices), Priced(h, prices) - {t};
    assert a.Keys == b.Keys;
    forall u | u in a
      ensures a[u] == b[u]
    {
      assert (h - {t})[u] == h[u];
    }
  }

  /** The sum of the values of a map, in no particular order. */
  ghost function Sum(m: map<string, real>): real
    decreases m.Keys
  {
    if m == map[] then 0.0
    else
      var t :| t in m;
      m[t] + Sum(m - {t})
  }

  /** What holdings are worth at `prices`. */
  ghost function Worth(h: map<string, real>, prices: map<string, real>): real {
    Sum(Priced(h, prices))
  }

  /** The quantity held of `t`, zero when it is not held (`holdings.get(t, 0)`). */
  function Held(h: map<string, real>, t: string): real {
    if t in h then h[t] else 0.0
  }

  /** What the holding of `t` adds to the valuation. */
  function Contribution(h: map<string, real>, prices: map<string, real>, t: string): real
    requires t in h
  {
    if t in prices then h[t] * prices[t] else 0.0
  }

  /** Any key can be taken out of the sum first: the sum does not depend on the order. */
  lemma {:induction false} SumRemove(m: map<string, real>, t: string)
    requires t in m
    ensures Sum(m) == m[t] + Sum(m - {t})
    decreases m.Keys
  {
    var u :| u in m && Sum(m) == m[u] + Sum(m - {u});
    if u != t {
      var withoutU, withoutT := m - {u}, m - {t};
      SumRemove(withoutU, t);
      SumRemove(withoutT, u);
      assert withoutU - {t} == withoutT - {u};
    }
  }

  /** Any held ticker can be taken out of the valuation first: the order the tickers are visited in does not matter. */
  lemma WorthRemove(h: map<string, real>, prices: map<string, real>, t: string)
    requires t in h
    ensures Worth(h, prices) == Contribution(h, prices, t) + Worth(h - {t}, prices)
  {
    var c := Priced(h, prices);
    PricedWithout(h, prices, t);
    if t in prices {
      SumRemove(c, t);
    } else {
      assert c - {t} == c;
    }
  }

  /**
   * Moving one ticker out of what is left to value and into a running total
   * keeps the running total plus the worth of what is left unchanged.
   */
  lemma RunningTotal(total: real, rest: map<string, real>, prices: map<string, real>, t: string, target: real)
    requires t in rest && total + Worth(rest, prices) == target
    ensures (if t in prices then total + rest[t] * prices[t] else total) + Worth(rest - {t}, prices) == target
  {
    WorthRemove(rest, prices, t);
  }

  /** Adding `amount` to the quantity of a ticker quoted at `price` adds `amount * price` to its contribution. */
  lemma ContributionAfterAdd(h: map<string, real>, prices: map<string, real>, t: string, amount: real, price: real)
    requires t in prices && prices[t] == price
    ensures Contribution(h[t := Held(h, t) + amount], prices, t)
         == (if t in h then Contribution(h, prices, t) else 0.0) + amount * price
  {
    var h' := h[t := Held(h, t) + amount];
    assert h'[t] == Held(h, t) + amount;
  }

  /** Taking `amount` off the quantity of a ticker quoted at `price` takes `amount * price` off its contribution. */
  lemma ContributionAfterTake(h: map<string, real>, prices: map<string, real>, t: string, amount: real, price: real)
    requires t in h && t in prices && prices[t] == price
    ensures var left := h[t] - amount;
      Contribution(h, prices, t) == (if left == 0.0 then 0.0 else Contribution(h[t := left], prices, t)) + amount * price
  {
    var left := h[t] - amount;
    var h' := h[t := left];
    assert h'[t] == left;
  }

  /**
   * Splitting a valuation into one ticker's contribution and the rest. An
   * arithmetic step of `WorthAfterAdd` and `WorthAfterTake`, stated over plain
   * numbers so that each of their steps is a direct use of a lemma.
   */
  lemma Rebalance(after: real, before: real, rest: real, cAfter: real, cBefore: real, delta: real)
    requires after == cAfter + rest && before == cBefore + rest && cAfter == cBefore + delta
    ensures after == before + delta && before == after - delta
  {
  }

  /** Adding `amount` to the quantity of a ticker quoted at `price` adds `amount * price` to the worth. */
  lemma WorthAfterAdd(h: map<string, real>, prices: map<string, real>, t: string, amount: real, price: real)
    requires t in prices && prices[t] == price
    ensures Worth(h[t := Held(h, t) + amount], prices) == Worth(h, prices) + amount * price
  {
    var rest, h' := h - {t}, h[t := Held(h, t) + amount];
    WorthRemove(h', prices, t);
    assert h' - {t} == rest;
    ContributionAfterAdd(h, prices, t, amount, price);
    if t in h {
      WorthRemove(h, prices, t);
    } else {
      assert rest == h;
    }
    Rebalance(Worth(h', prices), Worth(h, prices), Worth(rest, prices),
      Contribution(h', prices, t), if t in h then Contribution(h, prices, t) else 0.0, amount * price);
  }

  /**
   * Taking `amount` off the quantity of a ticker quoted at `price`, and
   * dropping the entry when nothing is left, takes `amount * price` off the worth.
   */
  lemma WorthAfterTake(h: map<string, real>, prices: map<string, real>, t: string, amount: real, price: real)
    requires t in h && t in prices && prices[t] == price
    ensures var left := h[t] - amount;
      Worth(if left == 0.0 then h - {t} else h[t := left], prices) == Worth(h, prices) - amount * price
  {
    var rest, left := h - {t}, h[t] - amount;
    WorthRemove(h, prices, t);
    ContributionAfterTake(h, prices, t, amount, price);
    if left != 0.0 {
      WorthRemove(h[t := left], prices, t);
      assert h[t := left] - {t} == rest;
    }
    Rebalance(Worth(h, prices), Worth(if left == 0.0 then h - {t} else h[t := left], prices), Worth(rest, prices),
      Contribution(h, prices, t), if left == 0.0 then 0.0 else Contribution(h[t := left], prices, t), amount * price);
  }

  /** Holdings of which no ticker has a price are worth nothing, and the valuation does not fail. */
  lemma WorthUnpriced(h: map<string, real>, prices: map<string, real>)
    requires forall t :: t in h ==> t !in prices
    ensures Worth(h, prices) == 0.0
  {
    assert Priced(h, prices).Keys == {};
    assert Priced(h, prices) == map[];
  }

  /** Non-negative values sum to a non-negative amount. */
  lemma {:induction false} SumNonnegative(m: map<string, real>)
    requires forall t :: t in m ==> m[t] >= 0.0
    ensures Sum(m) >= 0.0
    decreases m.Keys
  {
    if m != map[] {
      var u :| u in m && Sum(m) == m[u] + Sum(m - {u});
      SumNonnegative(m - {u});
    } else {
      assert Sum(m) == 0.0;
    }
  }

  /** Non-negative quantities at non-negative prices are worth a non-negative amount. */
  lemma WorthNonnegative(h: map<string, real>, prices: map<string, real>)
    requires forall t :: t in h ==> h[t] >= 0.0
    requires forall t :: t in prices ==> prices[t] >= 0.0
    ensures Worth(h, prices) >= 0.0
  {
    var c := Priced(h, prices);
    forall t | t in c
      ensures c[t] >= 0.0
    {
      ProductNonnegative(h[t], prices[t]);
    }
    SumNonnegative(c);
  }

  lemma ProductNonnegative(x: real, y: real)
    requires x >= 0.0 && y >= 0.0
    ensures x * y >= 0.0
  {
  }

  /** Holdings {A: 1, B: 1} where only A is quoted, at 50, are worth 50. */
  lemma PartialPricingExample()
    ensures Worth(map["A" := 1.0, "B" := 1.0], map["A" := 50.0]) == 50.0
  {
    var c := Priced(map["A" := 1.0, "B" := 1.0], map["A" := 50.0]);
    assert c == map["A" := 50.0];
    SumRemove(c, "A");
    assert c - {"A"} == map[];
  }
}
