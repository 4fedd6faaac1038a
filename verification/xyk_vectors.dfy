/** The literal cases of math/src/xyk/tests.rs, stated about the model. */
module XykVectors {
  import opened Wrappers
  import opened Uint
  import opened Xyk

  const ONE: Balance := 1_000_000_000_000

  lemma SpotPriceVectors()
    ensures CalculateSpotPrice(1000, 2000, 500) == Some(1000)
    ensures CalculateSpotPrice(1, 1, 1) == Some(1)
    ensures CalculateSpotPrice(1, 0, 1) == Some(0)
    ensures CalculateSpotPrice(1, 1, 0) == Some(0)
    ensures CalculateSpotPrice(U128_MAX, U128_MAX - 1, 1) == Some(0)
  {
  }

  lemma OutGivenInVectors()
    ensures CalculateOutGivenIn(1000, 2000, 500) == Some(666)
    ensures CalculateOutGivenIn(1000, 1000, 0) == Some(0)
    ensures CalculateOutGivenIn(0, U128_MAX, U128_MAX) == Some(U128_MAX)
    ensures CalculateOutGivenIn(0, 0, 0) == Some(0)
    ensures CalculateOutGivenIn(0, 1, 0) == Some(0)
    ensures CalculateOutGivenIn(1, 0, 0) == Some(0)
    ensures CalculateOutGivenIn(0, 0, U128_MAX) == Some(0)
  {
  }

  /** The last case shows the "+1" is not a ceiling: an exact quotient of 1000
      is still charged 1001. */
  lemma InGivenOutVectors()
    ensures CalculateInGivenOut(2000, 1000, 500) == Some(334)
    ensures CalculateInGivenOut(1000, 1000, 0) == Some(0)
    ensures CalculateInGivenOut(0, 0, 0) == Some(0)
    ensures CalculateInGivenOut(0, 1, 0) == Some(0)
    ensures CalculateInGivenOut(1000, 1000, 1000) == None
    ensures CalculateInGivenOut(0, 10, 1000) == None
    ensures CalculateInGivenOut(0, U128_MAX, U128_MAX) == None
    ensures CalculateInGivenOut(U128_MAX, U128_MAX, U128_MAX - 1) == None
    ensures CalculateInGivenOut(2000, 1000, 1000) == Some(1001)
  {
  }

  lemma LiquidityInVectors()
    ensures CalculateLiquidityIn(1000, 2000, 500) == Some(1001)
    ensures CalculateLiquidityIn(100, 100, 0) == Some(0)
    ensures CalculateLiquidityIn(110, 0, 100) == Some(0)
    ensures CalculateLiquidityIn(1, U128_MAX, U128_MAX) == None
  {
  }

  lemma LiquidityOutVectors()
    ensures CalculateLiquidityOut(1000, 2000, 500, 2500) == Some((200, 400))
    ensures CalculateLiquidityOut(100, 100, 100, 0) == None
    ensures CalculateLiquidityOut(0, 0, 0, 100) == Some((0, 0))
    ensures CalculateLiquidityOut(0, 110, 100, 100) == Some((0, 110))
    ensures CalculateLiquidityOut(110, 0, 100, 100) == Some((110, 0))
    ensures CalculateLiquidityOut(U128_MAX, 0, U128_MAX, 1) == None
    ensures CalculateLiquidityOut(0, U128_MAX, U128_MAX, 1) == None
  {
  }

  /** The third case of the source's share test expects `Some` for a zero
      reserve; the function itself returns `None` there. */
  lemma SharesVectors()
    ensures CalculateShares(100 * ONE, ONE, 10000 * ONE) == Some(100_000_000_000_000)
    ensures CalculateShares(100 * ONE, 15 * ONE, 143 * ONE) == Some(21_450_000_000_000)
    ensures CalculateShares(0, ONE, 10000 * ONE) == None
  {
  }
}
