# Constant-product AMM pricing, in Dafny

A model of the pricing library behind an x * y = k automated market maker.
Six stateless functions turn pool reserves, trade amounts and share issuance
into the amounts a pool pays out or takes in. Each one works the same way:

- it widens its `u128` arguments to a 256-bit accumulator;
- it multiplies and floor-divides there with checked operations;
- it narrows the result back to `u128` with a checked conversion;
- it returns `None` for every failure.

The "+1" adjustments round amounts that enter the pool up. Amounts that leave
the pool round down.

Layout:

- `wrappers.dfy`: module `Wrappers`. An `Option` that `:-` can propagate the way Rust's `?` does.
- `floor_div.dfy`: module `FloorDiv`. `IsFloorDiv(q, n, d)`, i.e. `q * d <= n < (q + 1) * d`. This is a definition of floor division that does not use `/`. The module also holds the product-monotonicity facts the proofs use.
- `uint.dfy`: module `Uint`. It models `u128` as `Balance` and `U256`, both as bounded `nat` subset types. It also models the helper macros of `math/src/lib.rs` and the checked `U256` operations they rely on.
- `xyk.dfy`: module `Xyk`. The six functions of `math/src/xyk/math.rs`, with their early exits in source order, and one lemma each giving the exact success condition and value.
- `xyk_properties.dfy`: module `XykProperties`. The economic properties: rounding direction, the constant product never decreasing, round trips, and agreement between functions.
- `xyk_trades.dfy`: module `XykTrades`. Runs of fee-free trades against one pool by an idealised caller. Each trade is priced by the library, and the price and the amount bought are settled on the reserves with checked `u128` arithmetic. Under this settlement the constant product never decreases along a run. The ledger's own `buy` settles differently; see "## Findings".
- `xyk_vectors.dfy`: module `XykVectors`. The literal cases of `math/src/xyk/tests.rs`.

Every checked `U256` operation is modelled as fallible, exactly as in the source.
These lemmas state which of those failure exits cannot be reached:

- every `checked_mul` on two widened operands succeeds (`Uint.WidenedMulFits`), and so does the `checked_add` of two widened operands in `calculate_out_given_in` (`Uint.WidenedAddFits`);
- the `checked_sub` in `calculate_in_given_out` succeeds once `amount_out <= out_reserve` has passed (`Xyk.InGivenOutSubSucceeds`);
- the `checked_add` of one to the quotient in `calculate_liquidity_in` succeeds (`Xyk.LiquidityInAddSucceeds`);
- `calculate_out_given_in` never fails (`Xyk.OutGivenInExact`), so its zero-denominator `ensure!` is never triggered.

Every `checked_div` follows an exit that has already ruled out a zero divisor. A function can therefore fail only at these exits:

- the `ensure!`s on `in_reserve`, `asset_a_reserve`, `total_liquidity` and `amount_out <= out_reserve`;
- the zero-denominator `ensure!` of `calculate_in_given_out` (math/src/xyk/math.rs:95), reached when `amount_out == out_reserve` (the second `ensures` of `Xyk.CalculateInGivenOut`; the source's own case 1000/1000/1000 at math/src/xyk/tests.rs:65);
- the zero-reserve return of `calculate_shares`;
- the `to_balance!` narrowing and `round_up!`.

Two behaviours of the code that are easy to misread:

- `calculate_in_given_out` adds one to the floor quotient. It does not take the ceiling, so an exact quotient is still charged one more unit (`XykVectors.InGivenOutVectors`, 2000/1000/1000 gives 1001).
- `calculate_shares` with a zero reserve returns `None`. One case of the source's own test ("initial shares") expects `Some` there. `XykVectors.SharesVectors` states what the code returns.

## Model

| member | source | states |
|---|---|---|
| `Uint.Ensure` | math/src/lib.rs:3-13 | `ensure!(e)` fails exactly when `e` is false and otherwise lets the function continue |
| `Uint.RoundUp` | math/src/lib.rs:15-20 | `round_up!` (checked `u128` add of `FIXED_ROUND_UP` = 1) fails exactly at `u128::MAX`, and otherwise gives one more than its argument |
| `Uint.Widen` | math/src/lib.rs:22-27 | `to_u256!` keeps the value unchanged |
| `Uint.CheckedDiv` | math/src/xyk/math.rs:37-38 | the `U256` `checked_div` used at every quotient (also lines 67, 96, 127, 155, 161 and 189) fails exactly on a zero divisor and otherwise returns the floor quotient, stated through the multiplication-only `IsFloorDiv` |
| `Uint.ToBalance` | math/src/lib.rs:29-34 | `to_balance!` succeeds exactly for values `<= u128::MAX` and then returns the value itself, so it never truncates |
| `Uint.WidenedMulFits` | math/src/lib.rs:22-27 | the product of two widened `u128` values never overflows `U256`, and it even leaves room for a further +1 |
| `Uint.WidenedAddFits` | math/src/xyk/math.rs:63 | the sum of two widened `u128` values never overflows `U256` |
| `Uint.RoundUpStylesAgree` | math/src/xyk/math.rs:98-100 | narrowing and then adding 1 in `u128` (as in `calculate_in_given_out`) equals adding 1 in `U256` and then narrowing (as in `calculate_liquidity_in`, lines 125-130); both fail exactly when the quotient is `>= u128::MAX` |
| `Xyk.CalculateSpotPrice` | math/src/xyk/math.rs:23-41 | a zero selling reserve fails first; after that, a zero amount or zero buying reserve gives 0 |
| `Xyk.SpotPriceExact` | math/src/xyk/math.rs:28-40 | succeeds exactly when `in != 0` and `out * amount < 2^128 * in`, and the result is then the floor of `out * amount / in` |
| `Xyk.CalculateOutGivenIn` | math/src/xyk/math.rs:51-70 | a zero `amount_in` gives 0 whatever the reserves |
| `Xyk.OutGivenInExact` | math/src/xyk/math.rs:56-69 | never fails for any `u128` inputs, never exceeds `out_reserve`, and for positive `amount_in` is the floor of `out * amount_in / (in + amount_in)` (rounded down) |
| `Xyk.CalculateInGivenOut` | math/src/xyk/math.rs:80-101 | `amount_out = 0` gives 0 even with empty reserves; otherwise `amount_out >= out_reserve` fails, covering both "exceeds reserve" and the zero denominator |
| `Xyk.InGivenOutExact` | math/src/xyk/math.rs:85-100 | succeeds exactly for a zero amount or for `amount_out < out_reserve` with `in * amount_out < u128::MAX * (out - amount_out)`; the result is then the floor of `in * amount_out / (out - amount_out)` plus one |
| `Xyk.InGivenOutSubSucceeds` | math/src/xyk/math.rs:88-94 | after `ensure!(amount_out <= out_reserve)` the `U256` `checked_sub` of the denominator succeeds with `out_reserve - amount_out` |
| `Xyk.CalculateLiquidityIn` | math/src/xyk/math.rs:111-131 | a zero asset-a reserve fails first; after that, a zero amount or zero asset-b reserve gives 0 |
| `Xyk.LiquidityInExact` | math/src/xyk/math.rs:116-130 | succeeds exactly when `a != 0` and either the amount or `b` is zero or `amount * b < u128::MAX * a`; a nonzero result is the floor of `amount * b / a` plus one |
| `Xyk.LiquidityInAddSucceeds` | math/src/xyk/math.rs:125-128 | for a nonzero asset-a reserve, the `U256` `checked_add(1)` applied to the floor of `amount * b / a` always succeeds |
| `Xyk.CalculateLiquidityOut` | math/src/xyk/math.rs:142-166 | zero total liquidity fails; a zero amount withdraws `(0, 0)` |
| `Xyk.LiquidityOutExact` | math/src/xyk/math.rs:148-165 | succeeds exactly when the total is nonzero and both pro-rata quotients fit in `u128`; the pair is then the two floors |
| `Xyk.CalculateShares` | math/src/xyk/math.rs:175-192 | a zero reserve fails; zero issuance or a zero amount gives 0 |
| `Xyk.SharesExact` | math/src/xyk/math.rs:180-191 | succeeds exactly when `reserve != 0` and `issuance * amount < 2^128 * reserve`, and the result is then the floor of `issuance * amount / reserve` |
| `XykProperties.OutGivenInKeepsProduct` | math/src/xyk/math.rs:60-69 | the sell price is at most the exact quotient, so the reserve product after the trade, `(in + a) * (out - r)`, is at least `in * out` |
| `XykProperties.InGivenOutNoValueLeak` | math/src/xyk/math.rs:93-100 | the buy price is strictly above the exact quotient and at most one above its floor, so `(in + r) * (out - a)` strictly exceeds `in * out` |
| `XykProperties.LiquidityInRoundsUp` | math/src/xyk/math.rs:125-130 | the required asset-b amount `r` satisfies `r * a > amount * b` and `(r - 1) * a <= amount * b` |
| `XykProperties.LiquidityOutProRata` | math/src/xyk/math.rs:153-163 | each withdrawn amount is at most the exact pro-rata share; for `0 < total` and `amount <= total` the withdrawal never fails and never exceeds either reserve |
| `XykProperties.LiquidityOutIndependent` | math/src/xyk/math.rs:153-165 | each component depends only on its own reserve: changing the other reserve leaves it unchanged |
| `XykProperties.LiquidityOutZeroReserve` | math/src/xyk/math.rs:153-163 | a zero asset-a reserve makes the a-component 0, and a zero asset-b reserve makes the b-component 0 (the other component is covered by `LiquidityOutIndependent`) |
| `XykProperties.SharesAgreeWithSpotPrice` | math/src/xyk/math.rs:187-191 | `calculate_shares(reserve, amount, issuance)` equals `calculate_spot_price(reserve, issuance, amount)` for all inputs |
| `XykProperties.LiquidityInIsRoundedSpotPrice` | math/src/xyk/math.rs:118-130 | for a nonzero amount and asset-b reserve, liquidity-in is the spot price passed through `round_up!`, with the same failure |
| `XykProperties.SellThenBuyBack` | math/src/xyk/math.rs:51-101 | the two price functions nearly invert each other: on the same reserves a sale always succeeds, and buying what it yields costs at most one unit more than was sold, and succeeds when the selling reserve is nonzero and that cost fits in `u128` (with an empty selling reserve the sale drains the pool and there is nothing to buy back) |
| `XykProperties.BuyThenSellBack` | math/src/xyk/math.rs:80-101 | on the same reserves, a sale of the amount `calculate_in_given_out` charges for `amount_out` is priced at least `amount_out` |
| `XykTrades.Settle` | pallet-amm/src/lib.rs:332-333 | settling a trade adds exactly the amount paid to the selling-side reserve and removes exactly the amount received from the buying-side reserve |
| `XykTrades.TradeKeepsProduct` | pallet-amm/src/lib.rs:321-381 | a successful idealised fee-free sell or buy (`ApplyTrade`) never lowers `reserve_a * reserve_b` |
| `XykTrades.ApplyTrade` | pallet-amm/src/lib.rs:321-333 | an idealised fee-free trade: a sell adds exactly the amount sold to the selling side; a buy removes exactly the amount bought from the buying side and fails when that would take the whole reserve. Unlike the ledger, a buy charges the library price (see "## Findings") |
| `XykTrades.ApplyTradePrice` | pallet-amm/src/lib.rs:321-381 | the price side of an idealised trade: a sell of `a` takes the floor of `out * a / (in + a)` from the buying side, and a buy of `b` puts one more than the floor of `in * b / (out - b)` into the selling side, both against the independent floor definition |
| `XykTrades.BuyAsWritten` | pallet-amm/src/lib.rs:369-381 | the ledger's `buy` as written: when it succeeds, the selling side grows by `amount_out - fee`, not by the price, and the buying side shrinks by `amount_out` |
| `XykTrades.BuyAsWrittenLowersProduct` | pallet-amm/src/lib.rs:376 | with a zero fee, buying 500 from (1000, 1000) as written gives (1500, 500), a lower product; the modelled buy gives (2001, 500), a higher one |
| `XykTrades.RunKeeps` | pallet-amm/src/lib.rs:300-392 | the induction behind `TradesKeepProduct`: a pool property kept by every successful trade still holds after any successful run of trades |
| `XykTrades.TradesKeepProduct` | pallet-amm/src/lib.rs:300-392 | any successful run of idealised fee-free sells and buys ends with a reserve product at least the starting one |
| `XykVectors.SpotPriceVectors` | math/src/xyk/tests.rs:5-22 | the spot-price cases of the source's tests, including `(MAX, MAX - 1, 1)` giving 0 |
| `XykVectors.OutGivenInVectors` | math/src/xyk/tests.rs:25-56 | the sell-price cases, including `(0, MAX, MAX)` giving `MAX` |
| `XykVectors.InGivenOutVectors` | math/src/xyk/tests.rs:59-85 | the buy-price cases, including the zero-denominator and overflow failures |
| `XykVectors.LiquidityInVectors` | math/src/xyk/tests.rs:88-104 | the liquidity-in cases, including the overflow `(1, MAX, MAX)` |
| `XykVectors.LiquidityOutVectors` | math/src/xyk/tests.rs:107-126 | the liquidity-out cases, including the overflow of either formula |
| `XykVectors.SharesVectors` | math/src/xyk/tests.rs:129-164 | the two proportional share cases; with a zero reserve the code returns `None` |

## Findings

| source | as written | input that shows it | evidently intended | confidence | as-written member | corrected member |
|---|---|---|---|---|---|---|
| pallet-amm/src/lib.rs:376 | `buy` charges the trader `amount_out - fee` of the selling asset, not the price `amount_in` from `calculate_in_given_out` | pool (1000, 1000), buy 500, fee 0: the ledger moves 500 in and 500 out, and the product falls from 1 000 000 to 750 000 | charge the computed price `amount_in` (adjusted by the fee), so the product never falls | high (not executed) | `XykTrades.BuyAsWrittenLowersProduct` | `XykTrades.TradeKeepsProduct` |

## Left out

- The ledger module that calls the library (pallet-amm/src/lib.rs) is out of scope. It covers pool creation and lookup, token transfers, minting and burning of share tokens, events, and account derivation. It is dispatch and storage plumbing over external traits. One consequence not modelled: its `create_pool` calls `calculate_shares` with a zero reserve, which always fails (see `XykVectors.SharesVectors`).
- XykTrades.TradeKeepsProduct: the buy it covers charges the library price, as the evident intent is. The ledger as written charges `amount_out - fee` (pallet-amm/src/lib.rs:376, 380). That settlement can lower the product even with a zero fee (`XykTrades.BuyAsWrittenLowersProduct`).
- XykTrades.TradesKeepProduct: same settlement as `TradeKeepsProduct`. A run of the ledger's own buys can lower the product.
- XykTrades.Settle: lets the buying-side reserve reach 0, for example a sell into a pool whose selling side is empty. The ledger's transfers with `keep_alive = true` (pallet-amm/src/lib.rs:333, 381) refuse to take the pool account below the existential deposit, which the test runtime sets to 1. Account existence is not modelled.
- Trading-fee computation is left out. It goes through a fixed-point `Permill`/`FixedU128` library whose rounding is not part of this model. `XykTrades` therefore settles its idealised trades without a fee. `XykTrades.BuyAsWritten` takes the fee as a parameter rather than computing it.
- The test runtime (pallet-amm/src/mock.rs), the trait declarations (pallet-amm/src/traits.rs) and the ledger tests are left out. They configure or exercise the ledger, not the arithmetic.
- The `to_lbp_weight!` macro (math/src/lib.rs:36-41) is left out. It is unused by the core, and its target type is not part of this model.
- The `invariants` test module named at math/src/xyk/math.rs:7 is not part of this model.
- The `U256` type of `primitive_types` is modelled only through the four checked operations the core uses (`checked_add`, `checked_sub`, `checked_mul`, `checked_div`), and `u128` only through its `checked_add` (behind `round_up!` and the settlement of a trade) and `checked_sub` (the settlement and the ledger's `buy`). Their results follow the documented semantics of those types.
