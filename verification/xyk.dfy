/** The constant-product (x * y = k) pricing functions of math/src/xyk/math.rs.
    Each widens its `u128` operands to `U256`, multiplies and divides with
    checked operations, and narrows back with a checked conversion; `:-` plays
    the part of Rust's `?`, so every early return of the source is a `None` here,
    in the same order. */
module Xyk {
  import opened Wrappers
  import opened FloorDiv
  import opened Uint

  /** `calculate_spot_price`: OUT_RESERVE * AMOUNT / IN_RESERVE. */
  function CalculateSpotPrice(inReserve: Balance, outReserve: Balance, amount: Balance): (r: Option<Balance>)
    ensures inReserve == 0 ==> r == None
    ensures inReserve != 0 && (amount == 0 || outReserve == 0) ==> r == Some(0)
  {
    var _ :- Ensure(inReserve != 0);
    if amount == 0 || outReserve == 0 then
      ToBalance(0)
    else
      var amountHp, outReserveHp, inReserveHp := Widen(amount), Widen(outReserve), Widen(inReserve);
      var product :- CheckedMul(outReserveHp, amountHp);
      var spotPriceHp :- CheckedDiv(product, inReserveHp);
      ToBalance(spotPriceHp)
  }

  /** `calculate_out_given_in`: the sell price OUT_RESERVE * AMOUNT_IN / (IN_RESERVE + AMOUNT_IN). */
  function CalculateOutGivenIn(inReserve: Balance, outReserve: Balance, amountIn: Balance): (r: Option<Balance>)
    ensures amountIn == 0 ==> r == Some(0)
  {
    if amountIn == 0 then
      Some(0)
    else
      var inReserveHp, outReserveHp, amountInHp := Widen(inReserve), Widen(outReserve), Widen(amountIn);
      var denominator :- CheckedAdd(inReserveHp, amountInHp);
      var _ :- Ensure(denominator != 0);
      var numerator :- CheckedMul(outReserveHp, amountInHp);
      var salePriceHp :- CheckedDiv(numerator, denominator);
      ToBalance(salePriceHp)
  }

  /** `calculate_in_given_out`: the buy price IN_RESERVE * AMOUNT_OUT / (OUT_RESERVE - AMOUNT_OUT),
      rounded down and then raised by one in `u128`. */
  function CalculateInGivenOut(outReserve: Balance, inReserve: Balance, amountOut: Balance): (r: Option<Balance>)
    ensures amountOut == 0 ==> r == Some(0)
    ensures amountOut != 0 && amountOut >= outReserve ==> r == None
  {
    if amountOut == 0 then
      Some(0)
    else
      var _ :- Ensure(amountOut <= outReserve);
      var outReserveHp, inReserveHp, amountOutHp := Widen(outReserve), Widen(inReserve), Widen(amountOut);
      var numerator :- CheckedMul(inReserveHp, amountOutHp);
      var denominator :- CheckedSub(outReserveHp, amountOutHp);
      var _ :- Ensure(denominator != 0);
      var buyPriceHp :- CheckedDiv(numerator, denominator);
      var result :- ToBalance(buyPriceHp);
      RoundUp(result)
  }

  /** `calculate_liquidity_in`: the asset-b contribution AMOUNT * ASSET_B_RESERVE / ASSET_A_RESERVE,
      rounded down and then raised by one in `U256` before narrowing. The source's
      `and_then` chain propagates `None` exactly as `:-` does. */
  function CalculateLiquidityIn(assetAReserve: Balance, assetBReserve: Balance, amount: Balance): (r: Option<Balance>)
    ensures assetAReserve == 0 ==> r == None
    ensures assetAReserve != 0 && (amount == 0 || assetBReserve == 0) ==> r == Some(0)
  {
    var _ :- Ensure(assetAReserve != 0);
    if amount == 0 || assetBReserve == 0 then
      Some(0)
    else
      var aReserveHp, bReserveHp, amountHp := Widen(assetAReserve), Widen(assetBReserve), Widen(amount);
      var product :- CheckedMul(amountHp, bReserveHp);
      var quotient :- CheckedDiv(product, aReserveHp);
      var bRequiredHp :- CheckedAdd(quotient, 1);
      ToBalance(bRequiredHp)
  }

  /** `calculate_liquidity_out`: the pair AMOUNT * ASSET_A_RESERVE / TOTAL_LIQUIDITY and
      AMOUNT * ASSET_B_RESERVE / TOTAL_LIQUIDITY, each rounded down and narrowed on its own. */
  function CalculateLiquidityOut(assetAReserve: Balance, assetBReserve: Balance, amount: Balance, totalLiquidity: Balance)
    : (r: Option<(Balance, Balance)>)
    ensures totalLiquidity == 0 ==> r == None
    ensures totalLiquidity != 0 && amount == 0 ==> r == Some((0, 0))
  {
    var _ :- Ensure(totalLiquidity != 0);
    var aReserveHp, bReserveHp, amountHp, liquidityHp :=
      Widen(assetAReserve), Widen(assetBReserve), Widen(amount), Widen(totalLiquidity);
    var productA :- CheckedMul(amountHp, aReserveHp);
    var removeAmountAHp :- CheckedDiv(productA, liquidityHp);
    var removeAmountA :- ToBalance(removeAmountAHp);
    var productB :- CheckedMul(bReserveHp, amountHp);
    var removeAmountBHp :- CheckedDiv(productB, liquidityHp);
    var removeAmountB :- ToBalance(removeAmountBHp);
    Some((removeAmountA, removeAmountB))
  }

  /** `calculate_shares`: ISSUANCE * AMOUNT / RESERVE. */
  function CalculateShares(assetReserve: Balance, assetAmount: Balance, shareIssuance: Balance): (r: Option<Balance>)
    ensures assetReserve == 0 ==> r == None
    ensures assetReserve != 0 && (shareIssuance == 0 || assetAmount == 0) ==> r == Some(0)
  {
    if assetReserve == 0 then
      None
    else
      var reserveHp, amountHp, issuanceHp := Widen(assetReserve), Widen(assetAmount), Widen(shareIssuance);
      var product :- CheckedMul(issuanceHp, amountHp);
      var result :- CheckedDiv(product, reserveHp);
      ToBalance(result)
  }

  // ---------------------------------------------------------------------------
  // Exact results: every checked U256 step succeeds, and only the listed
  // conditions make a function fail.

  /** Spot price fails exactly on a zero selling reserve or a quotient that does
      not fit in `u128`, and otherwise is the floor of out * amount / in. */
  lemma {:induction false} SpotPriceExact(inReserve: Balance, outReserve: Balance, amount: Balance)
    ensures CalculateSpotPrice(inReserve, outReserve, amount).Some?
        <==> inReserve != 0 && outReserve * amount < TWO_128 * inReserve
    ensures CalculateSpotPrice(inReserve, outReserve, amount).Some? ==>
        IsFloorDiv(CalculateSpotPrice(inReserve, outReserve, amount).value, outReserve * amount, inReserve)
  {
    if inReserve != 0 {
      WidenedMulFits(outReserve, amount);
      var n := outReserve * amount;
      NarrowedFloor(n, inReserve);
      if amount == 0 || outReserve == 0 {
        assert n == 0;
      } else {
        assert CalculateSpotPrice(inReserve, outReserve, amount) == ToBalance(n / inReserve);
      }
    }
  }

  /** Sell price never fails, never exceeds the buying reserve, and for a
      positive amount is the floor of out * amount / (in + amount). */
  lemma {:induction false} OutGivenInExact(inReserve: Balance, outReserve: Balance, amountIn: Balance)
    ensures CalculateOutGivenIn(inReserve, outReserve, amountIn).Some?
    ensures CalculateOutGivenIn(inReserve, outReserve, amountIn).value <= outReserve
    ensures amountIn != 0 ==>
        IsFloorDiv(CalculateOutGivenIn(inReserve, outReserve, amountIn).value, outReserve * amountIn, inReserve + amountIn)
  {
    if amountIn != 0 {
      WidenedAddFits(inReserve, amountIn);
      WidenedMulFits(outReserve, amountIn);
      var d := inReserve + amountIn;
      var n := outReserve * amountIn;
      assert CalculateOutGivenIn(inReserve, outReserve, amountIn) == ToBalance(n / d);
      DivIsFloor(n, d);
      FloorAtMostFactor(n / d, outReserve, amountIn, d);
    }
  }

  /** Once `ensure!(amount_out <= out_reserve)` has passed, the `checked_sub` of
      `calculate_in_given_out` cannot fail; the denominator it yields is zero
      exactly when the whole reserve is bought, which the next `ensure!` rejects. */
  lemma InGivenOutSubSucceeds(outReserve: Balance, amountOut: Balance)
    requires amountOut <= outReserve
    ensures CheckedSub(Widen(outReserve), Widen(amountOut)) == Some(outReserve - amountOut)
  {
  }

  /** The `checked_add(U256::one())` of `calculate_liquidity_in` cannot fail:
      the floor quotient it increments is at most `amount * b`, far below `2^256 - 1`. */
  lemma {:induction false} LiquidityInAddSucceeds(assetAReserve: Balance, assetBReserve: Balance, amount: Balance, q: U256)
    requires assetAReserve != 0 && IsFloorDiv(q, amount * assetBReserve, assetAReserve)
    ensures CheckedAdd(q, 1) == Some(q + 1)
  {
    WidenedMulFits(amount, assetBReserve);
    MulLe(q, 1, q, assetAReserve);
  }

  /** Buy price for a positive amount below the reserve: it succeeds exactly
      when the floor of in * amount / (out - amount) is below `u128::MAX`, and
      is then that floor plus one. */
  lemma {:induction false} InGivenOutExact(outReserve: Balance, inReserve: Balance, amountOut: Balance)
    ensures CalculateInGivenOut(outReserve, inReserve, amountOut).Some? <==>
        amountOut == 0 || (amountOut < outReserve && inReserve * amountOut < U128_MAX * (outReserve - amountOut))
    ensures amountOut != 0 && CalculateInGivenOut(outReserve, inReserve, amountOut).Some? ==>
        var r := CalculateInGivenOut(outReserve, inReserve, amountOut).value;
        r >= 1 && IsFloorDiv(r - 1, inReserve * amountOut, outReserve - amountOut)
  {
    if amountOut != 0 && amountOut < outReserve {
      WidenedMulFits(inReserve, amountOut);
      var d := outReserve - amountOut;
      var q := inReserve * amountOut / d;
      DivIsFloor(inReserve * amountOut, d);
      FloorBelow(q, inReserve * amountOut, d, U128_MAX);
      RoundUpStylesAgree(q);
    }
  }

  /** Liquidity-in succeeds exactly on a nonzero asset-a reserve whose rounded-up
      quotient fits, and is then one above the floor of amount * b / a. */
  lemma {:induction false} LiquidityInExact(assetAReserve: Balance, assetBReserve: Balance, amount: Balance)
    ensures CalculateLiquidityIn(assetAReserve, assetBReserve, amount).Some? <==>
        assetAReserve != 0 &&
        (amount == 0 || assetBReserve == 0 || amount * assetBReserve < U128_MAX * assetAReserve)
    ensures amount != 0 && assetBReserve != 0 && CalculateLiquidityIn(assetAReserve, assetBReserve, amount).Some? ==>
        var r := CalculateLiquidityIn(assetAReserve, assetBReserve, amount).value;
        r >= 1 && IsFloorDiv(r - 1, amount * assetBReserve, assetAReserve)
  {
    if assetAReserve != 0 && amount != 0 && assetBReserve != 0 {
      WidenedMulFits(amount, assetBReserve);
      var n := amount * assetBReserve;
      var q := n / assetAReserve;
      DivIsFloor(n, assetAReserve);
      assert q <= n by {
        MulLe(q, 1, q, assetAReserve);
      }
      assert CalculateLiquidityIn(assetAReserve, assetBReserve, amount)
          == (var w :- CheckedAdd(q, 1); ToBalance(w));
      FloorBelow(q, n, assetAReserve, U128_MAX);
      RoundUpStylesAgree(q);
    }
  }

  /** Liquidity-out fails exactly on zero total liquidity or a component that does
      not fit, and otherwise is the pair of floors of the pro-rata shares. */
  lemma {:induction false} LiquidityOutExact(assetAReserve: Balance, assetBReserve: Balance, amount: Balance, totalLiquidity: Balance)
    ensures CalculateLiquidityOut(assetAReserve, assetBReserve, amount, totalLiquidity).Some? <==>
        totalLiquidity != 0 &&
        amount * assetAReserve < TWO_128 * totalLiquidity &&
        assetBReserve * amount < TWO_128 * totalLiquidity
    ensures CalculateLiquidityOut(assetAReserve, assetBReserve, amount, totalLiquidity).Some? ==>
        var r := CalculateLiquidityOut(assetAReserve, assetBReserve, amount, totalLiquidity).value;
        IsFloorDiv(r.0, amount * assetAReserve, totalLiquidity) &&
        IsFloorDiv(r.1, assetBReserve * amount, totalLiquidity)
  {
    if totalLiquidity != 0 {
      var t := totalLiquidity;
      WidenedMulFits(amount, assetAReserve);
      WidenedMulFits(assetBReserve, amount);
      var na, nb := amount * assetAReserve, assetBReserve * amount;
      NarrowedFloor(na, t);
      NarrowedFloor(nb, t);
      var r := CalculateLiquidityOut(assetAReserve, assetBReserve, amount, t);
      assert r == (var ra :- ToBalance(na / t); var rb :- ToBalance(nb / t); Some((ra, rb)));
    }
  }

  /** Narrowing the floor of n / d succeeds exactly when n < 2^128 * d. */
  lemma {:induction false} NarrowedFloor(n: U256, d: Balance)
    requires d != 0
    ensures ToBalance(n / d).Some? <==> n < TWO_128 * d
    ensures IsFloorDiv(n / d, n, d)
  {
    DivIsFloor(n, d);
    FloorBelow(n / d, n, d, TWO_128);
  }

  /** Shares fail exactly on a zero reserve or a quotient that does not fit, and
      otherwise are the floor of issuance * amount / reserve. */
  lemma {:induction false} SharesExact(assetReserve: Balance, assetAmount: Balance, shareIssuance: Balance)
    ensures CalculateShares(assetReserve, assetAmount, shareIssuance).Some? <==>
        assetReserve != 0 && shareIssuance * assetAmount < TWO_128 * assetReserve
    ensures CalculateShares(assetReserve, assetAmount, shareIssuance).Some? ==>
        IsFloorDiv(CalculateShares(assetReserve, assetAmount, shareIssuance).value, shareIssuance * assetAmount, assetReserve)
  {
    if assetReserve != 0 {
      WidenedMulFits(shareIssuance, assetAmount);
      var n := shareIssuance * assetAmount;
      NarrowedFloor(n, assetReserve);
      assert CalculateShares(assetReserve, assetAmount, shareIssuance) == ToBalance(n / assetReserve);
    }
  }
}
