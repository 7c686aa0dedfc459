/** Facts of nonlinear arithmetic the solver is spared from rediscovering. */
module Arithmetic {

  lemma {:induction false} DivMod(n: nat, r: nat)
    requires r >= 1
    ensures n % (256 * r) == n % 256 + 256 * (n / 256 % r)
  {
    var q, m := n / 256 / r, n / 256 % r;
    assert n == 256 * (q * r + m) + n % 256;
    assert n == (256 * r) * q + (256 * m + n % 256) by {
      assert 256 * (q * r) == (256 * r) * q;
    }
    assert 0 <= 256 * m + n % 256 < 256 * r;
    ModIsRemainder(n, 256 * r, q, 256 * m + n % 256);
  }

  lemma {:induction false} ModIsRemainder(n: nat, d: nat, q: nat, m: nat)
    requires 0 <= m < d && n == d * q + m
    ensures n % d == m
  {
    var k := n / d - q;
    assert d * k == m - n % d by {
      assert n == d * (n / d) + n % d;
      assert d * k == d * (n / d) - d * q;
    }
    MultipleIsFar(d, k);
  }

  lemma MultipleIsFar(d: int, k: int)
    requires d >= 0
    ensures k >= 1 ==> d * k >= d
    ensures k <= -1 ==> d * k + d <= 0
  {
  }

  /** Multiplying by a positive factor keeps the order. */
  lemma Scale(m: real, p: real, q: real)
    requires m > 0.0
    ensures m * p <= m * q <==> p <= q
  {
    if p <= q {
      assert m * (q - p) >= 0.0;
    } else {
      assert m * (p - q) > 0.0;
    }
  }
}
