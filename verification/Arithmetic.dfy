/** Quotients and remainders. */
module Arithmetic {

  lemma MulMono(a: int, b: int, n: nat)
    requires a <= b
    ensures a * n <= b * n
  {
    assert 0 <= (b - a) * n == b * n - a * n;
  }

  lemma QuotientUnique(x: nat, n: nat, q: nat, r: nat)
    requires n > 0 && x == q * n + r && r < n
    ensures x / n == q
  {
    var p := x / n;
    assert x == p * n + x % n;
    if q < p {
      MulMono(q + 1, p, n);
    } else if p < q {
      MulMono(p + 1, q, n);
    }
  }

  /** Whole multiples do not count on 32 bits. */
  lemma ShiftMod(q: nat, x: nat)
    ensures (q * 0x1_0000_0000 + x) % 0x1_0000_0000 == x % 0x1_0000_0000
  {
  }

  /** Adding in two steps on 32 bits is adding at once. */
  lemma SumMod(x: nat, a: nat, b: nat)
    ensures ((x + a) % 0x1_0000_0000 + b) % 0x1_0000_0000 == (x + (a + b)) % 0x1_0000_0000
  {
    var m := 0x1_0000_0000;
    var q := (x + a) / m;
    assert x + a == q * m + (x + a) % m;
    ShiftMod(q, (x + a) % m + b);
  }

  lemma Product(c: nat, p: nat, d: nat)
    ensures 256 * (c * p + d) == c * (256 * p) + 256 * d
  {
  }

  lemma DivDiv(n: nat, p: nat)
    requires p > 0
    ensures n / 256 / p == n / (256 * p)
  {
    var c, d, b := n / 256 / p, n / 256 % p, n % 256;
    assert n / 256 == c * p + d;
    assert n == 256 * (n / 256) + b;
    Product(c, p, d);
    QuotientUnique(n, 256 * p, c, 256 * d + b);
  }
}
