/** Facts about integer division that the calendar and percentage
    computations rely on. */
module Arithmetic {

  /** Stepping the dividend by one raises the quotient exactly at multiples of `k`. */
  lemma DivStep(n: nat, k: nat)
    requires k > 0
    ensures (n + 1) / k == n / k + (if (n + 1) % k == 0 then 1 else 0)
  {
    var q, r := n / k, n % k;
    assert n == k * q + r && 0 <= r < k;
    if r == k - 1 {
      assert n + 1 == k * (q + 1);
      DivOfMultiple(n + 1, k, q + 1, 0);
    } else {
      assert n + 1 == k * q + (r + 1);
      DivOfMultiple(n + 1, k, q, r + 1);
    }
  }

  /** Quotient and remainder are the only ones that fit. */
  lemma DivOfMultiple(a: int, k: int, q: int, r: int)
    requires k > 0 && a == k * q + r && 0 <= r < k
    ensures a / k == q && a % k == r
  {
    var q', r' := a / k, a % k;
    assert a == k * q' + r' && 0 <= r' < k;
    if q' < q {
      assert k * q' + k <= k * q by { MulLeftMonotone(k, q' + 1, q); }
    } else if q < q' {
      assert k * q + k <= k * q' by { MulLeftMonotone(k, q + 1, q'); }
    }
  }

  lemma MulLeftMonotone(k: int, x: int, y: int)
    requires k >= 0 && x <= y
    ensures k * x <= k * y
  {
  }

  lemma RoundedQuotient(a: nat, b: nat)
    requires b > 0
    ensures b * (a / b) <= a < b * (a / b) + b
  {
  }

  /** Integer division by a positive number is monotone in the dividend. */
  lemma QuotientMonotone(a1: nat, a2: nat, b: nat)
    requires a1 <= a2 && b > 0
    ensures a1 / b <= a2 / b
  {
    RoundedQuotient(a1, b);
    RoundedQuotient(a2, b);
    if a1 / b > a2 / b {
      MulLeftMonotone(b, a2 / b + 1, a1 / b);
    }
  }

  lemma QuotientAtLeast(a: nat, b: nat, k: nat)
    requires b > 0 && b * k <= a
    ensures a / b >= k
  {
    RoundedQuotient(a, b);
    if a / b < k {
      MulLeftMonotone(b, a / b + 1, k);
    }
  }
}
