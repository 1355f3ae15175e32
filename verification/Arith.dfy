/** Facts about multiplication and division that the other modules share. */
module Arith {

  lemma SmallMultiple(k: int, c: int)
    requires -c < k * c < c
    ensures k == 0
  {
  }

  lemma LessCancel(x: int, y: int, c: int)
    requires c > 0 && x * c < y * c
    ensures x < y
  {
  }

  lemma QuotientUnique(n: int, c: int, q: int)
    requires c > 0 && q * c <= n < q * c + c
    ensures n / c == q && n % c == n - q * c
  {
    var d := n / c;
    assert n == d * c + n % c;
    assert (d - q) * c == d * c - q * c;
    SmallMultiple(d - q, c);
  }

  lemma QuotientBelow(n: int, c: int, q: int)
    requires c > 0 && n < q * c
    ensures n / c < q
  {
    LessCancel(n / c, q, c);
  }

  lemma QuotientAtLeast(n: int, c: int, q: int)
    requires c > 0 && q * c <= n
    ensures q <= n / c
  {
    assert q * c < (n / c + 1) * c;
    LessCancel(q, n / c + 1, c);
  }

  lemma ProductMonotone(x: int, y: int, u: int, v: int)
    requires 0 <= x <= u && 0 <= y <= v
    ensures 0 <= x * y <= u * v
  {
    assert x * (v - y) >= 0;
    assert (u - x) * v >= 0;
  }

  lemma Distribute(q: int, c: int, r: int, x: int)
    ensures (q * c + r) * x == q * (c * x) + r * x == (q * x) * c + r * x
    ensures x * (q * c + r) == (x * q) * c + x * r
  {
  }

  lemma DivMod(n: int, c: int)
    requires c > 0
    ensures n == n / c * c + n % c && 0 <= n % c < c
  {
  }

  /** Adding a multiple of the modulus changes no residue. */
  lemma ModShift(x: int, k: int, m: int)
    requires m > 0
    ensures (x + k * m) % m == x % m
    ensures (x + k * m) / m == x / m + k
  {
    assert (x / m + k) * m == x / m * m + k * m;
    QuotientUnique(x + k * m, m, x / m + k);
  }
}
