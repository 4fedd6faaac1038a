/** Economic properties of the pricing functions: rounding always favours the
    pool, the constant product never decreases across a trade, and the
    functions agree with one another where their formulas coincide. */
module XykProperties {
  import opened FloorDiv
  import opened Uint
  import opened Xyk

  // ---------------------------------------------------------------------------
  // Ring identities behind the trade properties, on plain integers.

  lemma SellAlgebra(i: int, o: int, a: int, r: int)
    requires r * (i + a) <= o * a
    ensures (i + a) * (o - r) >= i * o
  {
    assert (i + a) * (o - r) == i * o + a * o - r * (i + a);
  }

  lemma BuyAlgebra(i: int, o: int, a: int, r: int)
    requires r * (o - a) > i * a
    ensures (i + r) * (o - a) > i * o
  {
    assert (i + r) * (o - a) == i * o - i * a + r * (o - a);
  }

  lemma SellBuyAlgebra(i: int, o: int, x: int, q: int)
    requires q * (i + x) <= o * x
    ensures i * q <= x * (o - q)
  {
    assert q * (i + x) == q * i + q * x;
    assert x * (o - q) == x * o - x * q;
  }

  lemma BuySellAlgebra(i: int, o: int, y: int, r: int)
    requires i * y < r * (o - y)
    ensures y * (i + r) < o * r
  {
    assert r * (o - y) == r * o - r * y;
    assert y * (i + r) == y * i + y * r;
  }

  /** Selling `amountIn` never lowers the product of the reserves: the trader
      receives at most out * amountIn / (in + amountIn). */
  lemma {:induction false} OutGivenInKeepsProduct(inReserve: Balance, outReserve: Balance, amountIn: Balance)
    ensures var s := CalculateOutGivenIn(inReserve, outReserve, amountIn);
      s.Some? &&
      s.value * (inReserve + amountIn) <= outReserve * amountIn &&
      (inReserve + amountIn) * (outReserve - s.value) >= inReserve * outReserve
  {
    OutGivenInExact(inReserve, outReserve, amountIn);
    var r := CalculateOutGivenIn(inReserve, outReserve, amountIn).value;
    if amountIn != 0 {
      SellAlgebra(inReserve, outReserve, amountIn, r);
    }
  }

  /** Buying `amountOut` charges strictly more than the exact price
      in * amountOut / (out - amountOut), at most one unit above its floor, so the
      product of the reserves strictly grows ("no value leaking"). */
  lemma {:induction false} InGivenOutNoValueLeak(outReserve: Balance, inReserve: Balance, amountOut: Balance)
    requires amountOut != 0
    ensures var c := CalculateInGivenOut(outReserve, inReserve, amountOut);
      c.Some? ==>
        amountOut < outReserve &&
        c.value * (outReserve - amountOut) > inReserve * amountOut &&
        (c.value - 1) * (outReserve - amountOut) <= inReserve * amountOut &&
        (inReserve + c.value) * (outReserve - amountOut) > inReserve * outReserve
  {
    InGivenOutExact(outReserve, inReserve, amountOut);
    var c := CalculateInGivenOut(outReserve, inReserve, amountOut);
    if c.Some? {
      var r, d := c.value, outReserve - amountOut;
      MulLt(r - 1, d, r);
      BuyAlgebra(inReserve, outReserve, amountOut, r);
    }
  }

  /** The required asset-b contribution is strictly above the exact ratio
      amount * b / a and at most one unit above its floor. */
  lemma {:induction false} LiquidityInRoundsUp(assetAReserve: Balance, assetBReserve: Balance, amount: Balance)
    requires amount != 0 && assetBReserve != 0
    ensures var c := CalculateLiquidityIn(assetAReserve, assetBReserve, amount);
      c.Some? ==>
        c.value * assetAReserve > amount * assetBReserve &&
        (c.value - 1) * assetAReserve <= amount * assetBReserve
  {
    LiquidityInExact(assetAReserve, assetBReserve, amount);
  }

  /** A withdrawal of `amount` out of `totalLiquidity` shares never takes more than
      the exact pro-rata part of either reserve, and for amount <= totalLiquidity it
      never fails and never takes more than the reserve holds. */
  lemma {:induction false} LiquidityOutProRata(assetAReserve: Balance, assetBReserve: Balance, amount: Balance, totalLiquidity: Balance)
    ensures var w := CalculateLiquidityOut(assetAReserve, assetBReserve, amount, totalLiquidity);
      w.Some? ==>
        w.value.0 * totalLiquidity <= amount * assetAReserve &&
        w.value.1 * totalLiquidity <= assetBReserve * amount
    ensures 0 < totalLiquidity && amount <= totalLiquidity ==>
      var w := CalculateLiquidityOut(assetAReserve, assetBReserve, amount, totalLiquidity);
      w.Some? && w.value.0 <= assetAReserve && w.value.1 <= assetBReserve
  {
    LiquidityOutExact(assetAReserve, assetBReserve, amount, totalLiquidity);
    if 0 < totalLiquidity && amount <= totalLiquidity {
      var t := totalLiquidity;
      ShareOfReserve(amount, assetAReserve, t);
      ShareOfReserve(amount, assetBReserve, t);
      var w := CalculateLiquidityOut(assetAReserve, assetBReserve, amount, t);
      assert w.Some?;
      FloorAtMostFactor(w.value.0, assetAReserve, amount, t);
      FloorAtMostFactor(w.value.1, assetBReserve, amount, t);
    }
  }

  /** A share `amount` of at most `total` of a balance `reserve` has a floor
      quotient that fits in `u128`. */
  lemma ShareOfReserve(amount: nat, reserve: Balance, total: nat)
    requires 0 < total && amount <= total
    ensures reserve * amount < TWO_128 * total
    ensures amount * reserve < TWO_128 * total
  {
    MulLe(reserve, amount, reserve, total);
    MulLt(reserve, total, TWO_128);
  }

  /** The two withdrawn amounts are computed independently: changing one
      reserve does not change the other component. */
  lemma {:induction false} LiquidityOutIndependent(
    assetAReserve: Balance, assetBReserve: Balance, otherA: Balance, otherB: Balance,
    amount: Balance, totalLiquidity: Balance)
    ensures var w := CalculateLiquidityOut(assetAReserve, assetBReserve, amount, totalLiquidity);
      var wA := CalculateLiquidityOut(otherA, assetBReserve, amount, totalLiquidity);
      w.Some? && wA.Some? ==> w.value.1 == wA.value.1
    ensures var w := CalculateLiquidityOut(assetAReserve, assetBReserve, amount, totalLiquidity);
      var wB := CalculateLiquidityOut(assetAReserve, otherB, amount, totalLiquidity);
      w.Some? && wB.Some? ==> w.value.0 == wB.value.0
  {
    var t := totalLiquidity;
    var w := CalculateLiquidityOut(assetAReserve, assetBReserve, amount, t);
    var wA := CalculateLiquidityOut(otherA, assetBReserve, amount, t);
    var wB := CalculateLiquidityOut(assetAReserve, otherB, amount, t);
    if w.Some? && wA.Some? {
      LiquidityOutExact(assetAReserve, assetBReserve, amount, t);
      LiquidityOutExact(otherA, assetBReserve, amount, t);
      FloorUnique(w.value.1, wA.value.1, assetBReserve * amount, t);
    }
    if w.Some? && wB.Some? {
      LiquidityOutExact(assetAReserve, assetBReserve, amount, t);
      LiquidityOutExact(assetAReserve, otherB, amount, t);
      FloorUnique(w.value.0, wB.value.0, amount * assetAReserve, t);
    }
  }

  /** A zero reserve zeroes only its own withdrawn component. */
  lemma {:induction false} LiquidityOutZeroReserve(
    assetAReserve: Balance, assetBReserve: Balance, amount: Balance, totalLiquidity: Balance)
    ensures var w := CalculateLiquidityOut(assetAReserve, assetBReserve, amount, totalLiquidity);
      w.Some? ==> (assetAReserve == 0 ==> w.value.0 == 0) && (assetBReserve == 0 ==> w.value.1 == 0)
  {
    var t := totalLiquidity;
    var w := CalculateLiquidityOut(assetAReserve, assetBReserve, amount, t);
    if w.Some? {
      LiquidityOutExact(assetAReserve, assetBReserve, amount, t);
      if assetAReserve == 0 {
        FloorUnique(w.value.0, 0, 0, t);
      }
      if assetBReserve == 0 {
        FloorUnique(w.value.1, 0, 0, t);
      }
    }
  }

  /** `calculate_shares` is the spot price with the issuance in the place of the
      buying reserve: both are issuance * amount / reserve, rounded down. */
  lemma {:induction false} SharesAgreeWithSpotPrice(assetReserve: Balance, assetAmount: Balance, shareIssuance: Balance)
    ensures CalculateShares(assetReserve, assetAmount, shareIssuance)
         == CalculateSpotPrice(assetReserve, shareIssuance, assetAmount)
  {
    SharesExact(assetReserve, assetAmount, shareIssuance);
    SpotPriceExact(assetReserve, shareIssuance, assetAmount);
    var s := CalculateShares(assetReserve, assetAmount, shareIssuance);
    var p := CalculateSpotPrice(assetReserve, shareIssuance, assetAmount);
    if s.Some? && p.Some? {
      FloorUnique(s.value, p.value, shareIssuance * assetAmount, assetReserve);
    }
  }

  /** For a nonzero deposit into a pool with a nonzero asset-b reserve, the
      liquidity-in amount is the spot price rounded up by one. */
  lemma {:induction false} LiquidityInIsRoundedSpotPrice(assetAReserve: Balance, assetBReserve: Balance, amount: Balance)
    requires amount != 0 && assetBReserve != 0
    ensures CalculateLiquidityIn(assetAReserve, assetBReserve, amount)
         == (var p :- CalculateSpotPrice(assetAReserve, assetBReserve, amount); RoundUp(p))
  {
    LiquidityInExact(assetAReserve, assetBReserve, amount);
    SpotPriceExact(assetAReserve, assetBReserve, amount);
    var c := CalculateLiquidityIn(assetAReserve, assetBReserve, amount);
    var p := CalculateSpotPrice(assetAReserve, assetBReserve, amount);
    var n := amount * assetBReserve;
    if assetAReserve != 0 {
      if p.Some? {
        FloorBelow(p.value, n, assetAReserve, U128_MAX);
        if c.Some? {
          FloorUnique(c.value - 1, p.value, n, assetAReserve);
        }
      } else {
        MulLe(U128_MAX, assetAReserve, TWO_128, assetAReserve);
      }
    }
  }

  /** The two price functions nearly invert each other. On the same reserves,
      buying what a sale of `amountIn` yields costs at most `amountIn + 1`, and
      succeeds whenever the selling reserve is nonzero and that fits in `u128`. */
  lemma {:induction false} SellThenBuyBack(inReserve: Balance, outReserve: Balance, amountIn: Balance)
    ensures var s := CalculateOutGivenIn(inReserve, outReserve, amountIn);
      s.Some? &&
      var c := CalculateInGivenOut(outReserve, inReserve, s.value);
      (inReserve != 0 && amountIn < U128_MAX ==> c.Some?) && (c.Some? ==> c.value <= amountIn + 1)
  {
    OutGivenInExact(inReserve, outReserve, amountIn);
    var q := CalculateOutGivenIn(inReserve, outReserve, amountIn).value;
    InGivenOutExact(outReserve, inReserve, q);
    if q != 0 && inReserve == 0 {
      // the sell drains the pool, so there is nothing left to buy back
      FloorUnique(q, outReserve, outReserve * amountIn, amountIn);
    } else if q != 0 {
      var d := inReserve + amountIn;
      // q * d <= out * amountIn < out * d, so q < out
      assert q * d <= outReserve * amountIn;
      assert outReserve * amountIn < outReserve * d by {
        MulLt(amountIn, outReserve, d);
      }
      LtOfMulLt(q, outReserve, d);
      // q * in <= amountIn * (out - q)
      SellBuyAlgebra(inReserve, outReserve, amountIn, q);
      var f := inReserve * q / (outReserve - q);
      DivIsFloor(inReserve * q, outReserve - q);
      FloorBelow(f, inReserve * q, outReserve - q, amountIn + 1);
      MulLt(amountIn, outReserve - q, amountIn + 1);
      if amountIn < U128_MAX {
        FloorBelow(f, inReserve * q, outReserve - q, U128_MAX);
        MulLe(amountIn + 1, outReserve - q, U128_MAX, outReserve - q);
      }
    }
  }

  /** On the same reserves, a sale of what `calculate_in_given_out` charges for
      `amountOut` is priced at least `amountOut`: the round-up never lets a
      trader come out ahead. */
  lemma {:induction false} BuyThenSellBack(outReserve: Balance, inReserve: Balance, amountOut: Balance)
    ensures var c := CalculateInGivenOut(outReserve, inReserve, amountOut);
      c.Some? ==>
        var s := CalculateOutGivenIn(inReserve, outReserve, c.value);
        s.Some? && s.value >= amountOut
  {
    var c := CalculateInGivenOut(outReserve, inReserve, amountOut);
    if c.Some? {
      OutGivenInExact(inReserve, outReserve, c.value);
    }
    if c.Some? && amountOut != 0 {
      InGivenOutExact(outReserve, inReserve, amountOut);
      var r := c.value;
      OutGivenInExact(inReserve, outReserve, r);
      var q := CalculateOutGivenIn(inReserve, outReserve, r).value;
      // in * amountOut < r * (out - amountOut), so amountOut * (in + r) < out * r
      assert inReserve * amountOut < r * (outReserve - amountOut);
      MulLt(r - 1, outReserve - amountOut, r);
      BuySellAlgebra(inReserve, outReserve, amountOut, r);
      assert outReserve * r < (q + 1) * (inReserve + r);
      LtOfMulLt(amountOut, q + 1, inReserve + r);
    }
  }
}
