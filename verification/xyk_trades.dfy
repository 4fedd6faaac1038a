/** Repeated fee-free trades against one pool by an idealised caller: each trade
    is priced by the library, the price is added to the selling-side reserve and
    the amount bought is taken from the buying-side reserve, both with checked
    `u128` arithmetic. Under this settlement the constant product never
    decreases. The ledger's own `buy` settles differently (it charges
    `amount_out - fee` instead of the price); `BuyAsWritten` models that
    settlement and `BuyAsWrittenLowersProduct` shows it can lower the product. */
module XykTrades {
  import opened Wrappers
  import opened FloorDiv
  import opened Uint
  import opened Xyk
  import opened XykProperties

  datatype Pool = Pool(reserveA: Balance, reserveB: Balance)

  /** A trade names the asset the trader sells to the pool (`sellsA`) and the
      fixed side of the trade: the amount sold, or the amount bought. */
  datatype Trade =
    | Sell(sellsA: bool, amountIn: Balance)
    | Buy(sellsA: bool, amountOut: Balance)

  /** The constant-product invariant k. */
  function Product(p: Pool): (k: nat) {
    p.reserveA * p.reserveB
  }

  /** The (selling-side, buying-side) reserves of a pool for a trade direction. */
  function Sides(p: Pool, sellsA: bool): (sides: (Balance, Balance)) {
    if sellsA then (p.reserveA, p.reserveB) else (p.reserveB, p.reserveA)
  }

  /** The pool after `paid` enters the selling side and `received` leaves the buying side. */
  function Settle(p: Pool, sellsA: bool, paid: Balance, received: Balance): (r: Option<Pool>)
    ensures r.Some? ==>
      Sides(r.value, sellsA).0 == Sides(p, sellsA).0 + paid &&
      Sides(r.value, sellsA).1 + received == Sides(p, sellsA).1
  {
    var (inReserve, outReserve) := Sides(p, sellsA);
    var newIn :- CheckedAddBalance(inReserve, paid);
    var newOut :- CheckedSubBalance(outReserve, received);
    Some(if sellsA then Pool(newIn, newOut) else Pool(newOut, newIn))
  }

  /** One trade: a sell pays the sale price out of the buying side, a buy
      charges the buy price into the selling side. */
  function ApplyTrade(p: Pool, t: Trade): (r: Option<Pool>)
    ensures r.Some? && t.Sell? ==> Sides(r.value, t.sellsA).0 == Sides(p, t.sellsA).0 + t.amountIn
    ensures r.Some? && t.Buy? ==> Sides(r.value, t.sellsA).1 + t.amountOut == Sides(p, t.sellsA).1
    ensures t.Buy? && t.amountOut != 0 && t.amountOut >= Sides(p, t.sellsA).1 ==> r == None
  {
    var (inReserve, outReserve) := Sides(p, t.sellsA);
    match t
    case Sell(sellsA, amountIn) =>
      var amountOut :- CalculateOutGivenIn(inReserve, outReserve, amountIn);
      Settle(p, sellsA, amountIn, amountOut)
    case Buy(sellsA, amountOut) =>
      var amountIn :- CalculateInGivenOut(outReserve, inReserve, amountOut);
      Settle(p, sellsA, amountIn, amountOut)
  }

  /** The price side of a trade: a sell pays out the floor of
      out * amountIn / (in + amountIn) from the buying side, and a buy charges one
      more than the floor of in * amountOut / (out - amountOut) into the selling side. */
  lemma {:induction false} ApplyTradePrice(p: Pool, t: Trade)
    ensures var r := ApplyTrade(p, t);
      var (i, o) := Sides(p, t.sellsA);
      r.Some? && t.Sell? && t.amountIn != 0 ==>
        o >= Sides(r.value, t.sellsA).1 &&
        IsFloorDiv(o - Sides(r.value, t.sellsA).1, o * t.amountIn, i + t.amountIn)
    ensures var r := ApplyTrade(p, t);
      var (i, o) := Sides(p, t.sellsA);
      r.Some? && t.Buy? && t.amountOut != 0 ==>
        o > t.amountOut && Sides(r.value, t.sellsA).0 > i &&
        IsFloorDiv(Sides(r.value, t.sellsA).0 - i - 1, i * t.amountOut, o - t.amountOut)
  {
    var (i, o) := Sides(p, t.sellsA);
    match t
    case Sell(sellsA, amountIn) =>
      OutGivenInExact(i, o, amountIn);
    case Buy(sellsA, amountOut) =>
      InGivenOutExact(o, i, amountOut);
  }

  /** The ledger's `buy` as written, with the fee taken as a parameter: it prices
      the trade with `calculate_in_given_out`, but then charges
      `amount_out - fee` of the selling asset instead of that price. */
  function BuyAsWritten(p: Pool, sellsA: bool, amountOut: Balance, fee: Balance, maxLimit: Balance): (r: Option<Pool>)
    ensures r.Some? ==>
      fee <= amountOut &&
      Sides(r.value, sellsA).0 == Sides(p, sellsA).0 + (amountOut - fee) &&
      Sides(r.value, sellsA).1 + amountOut == Sides(p, sellsA).1
  {
    var (inReserve, outReserve) := Sides(p, sellsA);
    var amountIn :- CalculateInGivenOut(outReserve, inReserve, amountOut);
    var amountInWithFee :- CheckedSubBalance(amountOut, fee);
    var _ :- Ensure(amountInWithFee <= maxLimit);
    Settle(p, sellsA, amountInWithFee, amountOut)
  }

  /** With a zero fee, buying 500 from a (1000, 1000) pool as written moves 500
      in and 500 out, and the product falls from 1 000 000 to 750 000; the
      modelled `ApplyTrade` charges the price 1001 and the product grows. */
  lemma BuyAsWrittenLowersProduct()
    ensures BuyAsWritten(Pool(1000, 1000), true, 500, 0, 1000) == Some(Pool(1500, 500))
    ensures Product(Pool(1500, 500)) < Product(Pool(1000, 1000))
    ensures ApplyTrade(Pool(1000, 1000), Buy(true, 500)) == Some(Pool(2001, 500))
    ensures Product(Pool(2001, 500)) > Product(Pool(1000, 1000))
  {
  }

  /** Applies `step` for each trade in order; the first failing step fails the
      whole run. */
  function Run(step: (Pool, Trade) -> Option<Pool>, p: Pool, trades: seq<Trade>): (r: Option<Pool>)
    decreases |trades|
  {
    if |trades| == 0 then
      Some(p)
    else
      var next :- step(p, trades[0]);
      Run(step, next, trades[1..])
  }

  /** A sequence of trades, each priced by the library and settled on the pool. */
  function ApplyTrades(p: Pool, trades: seq<Trade>): (r: Option<Pool>) {
    Run(ApplyTrade, p, trades)
  }

  /** A property of pools that every successful step keeps also holds after a
      successful run. */
  lemma {:induction false} RunKeeps(step: (Pool, Trade) -> Option<Pool>, inv: Pool -> bool, p: Pool, trades: seq<Trade>)
    requires inv(p)
    requires forall q: Pool, t: Trade :: inv(q) && step(q, t).Some? ==> inv(step(q, t).value)
    ensures Run(step, p, trades).Some? ==> inv(Run(step, p, trades).value)
    decreases |trades|
  {
    if |trades| > 0 && step(p, trades[0]).Some? {
      RunKeeps(step, inv, step(p, trades[0]).value, trades[1..]);
    }
  }

  lemma ProductOfSides(p: Pool, sellsA: bool)
    ensures Sides(p, sellsA).0 * Sides(p, sellsA).1 == Product(p)
  {
  }

  /** One trade never lowers the product of the reserves. */
  lemma {:induction false} TradeKeepsProduct(p: Pool, t: Trade)
    ensures ApplyTrade(p, t).Some? ==> Product(ApplyTrade(p, t).value) >= Product(p)
  {
    var r := ApplyTrade(p, t);
    if r.Some? {
      var q := r.value;
      var (i, o) := Sides(p, t.sellsA);
      ProductOfSides(p, t.sellsA);
      ProductOfSides(q, t.sellsA);
      match t
      case Sell(sellsA, amountIn) =>
        OutGivenInKeepsProduct(i, o, amountIn);
      case Buy(sellsA, amountOut) =>
        if amountOut != 0 {
          InGivenOutNoValueLeak(o, i, amountOut);
        }
    }
  }

  /** Any sequence of trades that succeeds leaves the product of the reserves at
      least where it started. */
  lemma TradesKeepProduct(p: Pool, trades: seq<Trade>)
    ensures ApplyTrades(p, trades).Some? ==> Product(ApplyTrades(p, trades).value) >= Product(p)
  {
    var k := Product(p);
    forall q: Pool, t: Trade | Product(q) >= k && ApplyTrade(q, t).Some?
      ensures Product(ApplyTrade(q, t).value) >= k
    {
      TradeKeepsProduct(q, t);
    }
    RunKeeps(ApplyTrade, q => Product(q) >= k, p, trades);
  }
}
