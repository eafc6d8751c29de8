/** The little of integer division that page arithmetic needs. */
module DivMod {
  lemma MulBig(n: nat, k: nat)
    requires n > 0 && k >= 1
    ensures k * n >= n
  {
  }

  lemma Distribute(q: int, d: int, n: int)
    ensures (q - d) * n == q * n - d * n
  {
  }

  lemma Fundamental(x: nat, n: nat)
    requires n > 0
    ensures x == x / n * n + x % n && 0 <= x % n < n
  {
  }

  lemma QuotientUnique(q: nat, r: nat, d: nat, m: nat, n: nat)
    requires n > 0 && r < n && m < n && q * n + r == d * n + m
    ensures q == d && r == m
  {
    Distribute(q, d, n);
    Distribute(d, q, n);
    if q > d {
      MulBig(n, q - d);
    } else if d > q {
      MulBig(n, d - q);
    }
  }

  lemma DivisionIs(x: nat, q: nat, n: nat, r: nat)
    requires n > 0 && r < n && x == q * n + r
    ensures x / n == q && x % n == r
  {
    Fundamental(x, n);
    QuotientUnique(q, r, x / n, x % n, n);
  }

  /** A number by its low byte, the byte above and the rest. */
  lemma ByBytes(n: nat) returns (q: nat, high: nat, low: nat)
    ensures n == 0x1_0000 * q + 0x100 * high + low && high < 0x100 && low < 0x100
    ensures n % 0x100 == low && n / 0x100 % 0x100 == high && n % 0x1_0000 == 0x100 * high + low
  {
    low, high, q := n % 0x100, n / 0x100 % 0x100, n / 0x100 / 0x100;
    Fundamental(n, 0x100);
    Fundamental(n / 0x100, 0x100);
    DivisionIs(n, q, 0x1_0000, 0x100 * high + low);
  }
}
