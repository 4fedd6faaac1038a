/** The fixed-width integers of the library and the helper macros of
    math/src/lib.rs: `Balance` is Rust's `u128`, `U256` is the 256-bit
    accumulator of `primitive_types`, and each checked operation answers
    `None` where the Rust one does. */
module Uint {
  import opened Wrappers
  import opened FloorDiv

  const TWO_128: nat := 0x1_0000_0000_0000_0000_0000_0000_0000_0000
  const U128_MAX: nat := TWO_128 - 1
  const TWO_256: nat := TWO_128 * TWO_128

  type Balance = x: nat | x < TWO_128
  type U256 = x: nat | x < TWO_256

  /** The increment `round_up!` adds. */
  const FIXED_ROUND_UP: Balance := 1

  /** `ensure!(cond)`: the enclosing function returns `None` when `cond` is false. */
  function Ensure(cond: bool): (r: Option<()>)
    ensures r.IsFailure() <==> !cond
  {
    if cond then Some(()) else None
  }

  /** `u128::checked_add`. */
  function CheckedAddBalance(a: Balance, b: Balance): (r: Option<Balance>) {
    if a + b < TWO_128 then Some(a + b) else None
  }

  /** `u128::checked_sub`. */
  function CheckedSubBalance(a: Balance, b: Balance): (r: Option<Balance>) {
    if b <= a then Some(a - b) else None
  }

  /** `round_up!(x)`: a checked `u128` addition of `FIXED_ROUND_UP`. */
  function RoundUp(x: Balance): (r: Option<Balance>)
    ensures r.None? <==> x == U128_MAX
    ensures r.Some? ==> r.value > x && r.value - x == 1
  {
    CheckedAddBalance(x, FIXED_ROUND_UP)
  }

  /** `to_u256!(x)`: `U256::from` on a `u128`, which keeps the value. */
  function Widen(x: Balance): (w: U256)
    ensures w == x
  {
    x
  }

  /** `U256::checked_add`. */
  function CheckedAdd(a: U256, b: U256): (r: Option<U256>) {
    if a + b < TWO_256 then Some(a + b) else None
  }

  /** `U256::checked_sub`. */
  function CheckedSub(a: U256, b: U256): (r: Option<U256>) {
    if b <= a then Some(a - b) else None
  }

  /** `U256::checked_mul`. */
  function CheckedMul(a: U256, b: U256): (r: Option<U256>) {
    if a * b < TWO_256 then Some(a * b) else None
  }

  /** `U256::checked_div`: `None` on a zero divisor, else the quotient rounded down. */
  function CheckedDiv(a: U256, b: U256): (r: Option<U256>)
    ensures r.None? <==> b == 0
    ensures r.Some? ==> IsFloorDiv(r.value, a, b)
  {
    if b == 0 then None else Some(a / b)
  }

  /** `to_balance!(x)`: `Balance::try_from(x).ok()`, which fails rather than truncates. */
  function ToBalance(x: U256): (r: Option<Balance>)
    ensures r.Some? <==> x <= U128_MAX
    ensures r.Some? ==> r.value == x
  {
    if x < TWO_128 then Some(x) else None
  }

  /** The product of two widened balances always fits: it is at most
      `(2^128 - 1)^2`, which is even below `2^256 - 1`. */
  lemma {:induction false} WidenedMulFits(a: Balance, b: Balance)
    ensures CheckedMul(Widen(a), Widen(b)) == Some(a * b)
    ensures a * b < TWO_256 - 1
  {
    MulLe(a, b, U128_MAX, U128_MAX);
    assert U128_MAX * U128_MAX < TWO_256 - 1;
  }

  /** The sum of two widened balances always fits. */
  lemma WidenedAddFits(a: Balance, b: Balance)
    ensures CheckedAdd(Widen(a), Widen(b)) == Some(a + b)
  {
  }

  /** Narrowing first and then adding one in `u128` (as `calculate_in_given_out`
      does) agrees with adding one in `U256` and then narrowing (as
      `calculate_liquidity_in` does): both fail exactly when `q >= u128::MAX`
      and otherwise give `q + 1`. */
  lemma RoundUpStylesAgree(q: U256)
    ensures (var b :- ToBalance(q); RoundUp(b)) == (var w :- CheckedAdd(q, 1); ToBalance(w))
    ensures (var b :- ToBalance(q); RoundUp(b)) == (if q < U128_MAX then Some(q + 1) else None)
  {
  }
}
