/** Floor division over the naturals, characterised without `/`, and the
    monotonicity facts about products that the overflow proofs need. */
module FloorDiv {

  /** `q` is the floor of the exact quotient `n / d`. */
  ghost predicate IsFloorDiv(q: nat, n: nat, d: nat) {
    d > 0 && q * d <= n < (q + 1) * d
  }

  lemma MulLe(a: nat, b: nat, c: nat, d: nat)
    requires a <= c && b <= d
    ensures a * b <= c * d
  {
    assert a * b <= c * b;
    assert c * b <= c * d;
  }

  lemma MulLt(a: nat, b: nat, c: nat)
    requires a < c && b > 0
    ensures a * b < c * b
  {
  }

  /** Dafny's `/` on naturals with a positive divisor is floor division. */
  lemma DivIsFloor(n: nat, d: nat)
    requires d > 0
    ensures IsFloorDiv(n / d, n, d)
  {
  }

  /** The floor quotient is unique. */
  lemma {:induction false} FloorUnique(q1: nat, q2: nat, n: nat, d: nat)
    requires IsFloorDiv(q1, n, d) && IsFloorDiv(q2, n, d)
    ensures q1 == q2
  {
    if q1 < q2 {
      MulLe(q1 + 1, d, q2, d);
    } else if q2 < q1 {
      MulLe(q2 + 1, d, q1, d);
    }
  }

  /** The floor quotient is below `m` exactly when the numerator is below `m * d`. */
  lemma {:induction false} FloorBelow(q: nat, n: nat, d: nat, m: nat)
    requires IsFloorDiv(q, n, d)
    ensures q < m <==> n < m * d
  {
    if q < m {
      MulLe(q + 1, d, m, d);
    } else {
      MulLe(m, d, q, d);
    }
  }

  /** Cancelling a positive factor from a strict inequality of products. */
  lemma {:induction false} LtOfMulLt(a: nat, b: nat, d: nat)
    requires a * d < b * d
    ensures a < b
  {
    if b <= a {
      MulLe(b, d, a, d);
    }
  }

  /** The floor of c * a / d is at most c when a <= d. */
  lemma {:induction false} FloorAtMostFactor(q: nat, c: nat, a: nat, d: nat)
    requires a <= d && (IsFloorDiv(q, c * a, d) || IsFloorDiv(q, a * c, d))
    ensures q <= c
  {
    assert c * a == a * c;
    MulLe(c, a, c, d);
    MulLt(c, d, c + 1);
    FloorBelow(q, c * a, d, c + 1);
  }
}
