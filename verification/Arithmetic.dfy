/** Facts about products, quotients and remainders of unknown numbers. */
module Arithmetic {
  lemma DivMod(x: nat, n: nat)
    requires 0 < n
    ensures x == n * (x / n) + x % n && x == (x / n) * n + x % n
    ensures 0 <= x % n < n
  {
  }

  lemma SmallMod(x: nat, n: nat)
    requires x < n
    ensures x % n == x
  {
  }

  lemma Expand(n: nat, j: nat)
    ensures n * (j + 1) == n * j + n
  {
  }

  lemma MulMonotone(n: nat, i: nat, j: nat)
    requires i <= j
    ensures n * i <= n * j
  {
  }

  /** From `n * q < n * m` follows `n * q <= n * (m - 1)`. */
  lemma MulBelow(n: nat, q: nat, m: nat)
    requires 0 < m && n * q < n * m
    ensures n * q <= n * (m - 1)
  {
    if m <= q {
      MulMonotone(n, m, q);
    } else {
      MulMonotone(n, q, m - 1);
    }
  }

  lemma AtLeastTwice(n: nat, q: int)
    requires 2 <= n
    ensures q > 0 ==> n * q >= 2 * q
    ensures q <= 0 ==> n * q <= 0
  {
  }

  /** Dividing by two or more at least halves. */
  lemma DivHalves(x: nat, n: nat)
    requires 2 <= n
    ensures 2 * (x / n) <= x
    ensures n <= x ==> 0 < x / n < x
  {
    DivMod(x, n);
    AtLeastTwice(n, x / n);
  }

  lemma DivModIs(x: nat, n: nat, q: nat, r: nat)
    requires x == n * q + r && r < n
    ensures x / n == q && x % n == r
  {
    DivMod(x, n);
    if x / n < q {
      MulMonotone(n, x / n + 1, q);
      Expand(n, x / n);
    } else if q < x / n {
      MulMonotone(n, q + 1, x / n);
      Expand(n, q);
    }
  }

  lemma DoubleProduct(a: nat, b: nat)
    ensures (2 * a) * b == 2 * (a * b) && a * (2 * b) == 2 * (a * b)
  {
  }

  /** Dividing by twice a number is halving first. */
  lemma HalveFirst(x: nat, n: nat)
    requires 0 < n
    ensures x / (2 * n) == (x / 2) / n
    ensures x % (2 * n) == x % 2 + 2 * ((x / 2) % n)
  {
    var q, r := (x / 2) / n, (x / 2) % n;
    DivMod(x / 2, n);
    DoubleProduct(n, q);
    DivModIs(x, 2 * n, q, x % 2 + 2 * r);
  }

  function Power2(k: nat): (p: nat)
    ensures 0 < p
  {
    if k == 0 then 1 else 2 * Power2(k - 1)
  }

  lemma {:induction false} Power2Sum(a: nat, b: nat)
    ensures Power2(a + b) == Power2(a) * Power2(b)
  {
    if a > 0 {
      Power2Sum(a - 1, b);
    }
  }

  lemma Power2Of32()
    ensures Power2(32) == 0x1_0000_0000
  {
    assert Power2(2) == 4;
    Power2Sum(2, 2);
    Power2Sum(4, 4);
    Power2Sum(8, 8);
    Power2Sum(16, 16);
  }

  lemma Power2Of64()
    ensures Power2(64) == 0x1_0000_0000_0000_0000
  {
    Power2Of32();
    Power2Sum(32, 32);
  }
}
