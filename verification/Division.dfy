/** Facts about quotients and remainders that are not linear. */
module Division {
  lemma LargeMultiple(m: int, d: int)
    requires d > 0 && m != 0
    ensures m * d >= d || m * d <= -d
  {
    if m > 0 { assert (m - 1) * d >= 0; } else { assert (-1 - m) * d >= 0; }
  }

  /** Quotient and remainder are the only ones. */
  lemma Unique(n: int, d: int, q: int, r: int)
    requires n == q * d + r && 0 <= r < d
    ensures n / d == q && n % d == r
  {
    assert n == (n / d) * d + n % d;
    assert (n / d - q) * d == r - n % d;
    if n / d != q { LargeMultiple(n / d - q, d); }
  }

  lemma Halve(n: nat, p: nat)
    requires p > 0
    ensures n / (2 * p) == (n / 2) / p
  {
    var q, r := (n / 2) / p, (n / 2) % p;
    assert n == 2 * (q * p + r) + n % 2;
    assert n == q * (2 * p) + (2 * r + n % 2);
    Unique(n, 2 * p, q, 2 * r + n % 2);
  }

  /** The remainder by a product, from the quotient and remainder by a factor. */
  lemma ModOfProduct(n: nat, b: nat, p: nat)
    requires b > 0 && p > 0
    ensures b * p > 0 && n % (b * p) == ((n / b) % p) * b + n % b
  {
    var q, r := (n / b) / p, (n / b) % p;
    assert n / b == q * p + r;
    assert n == (q * p + r) * b + n % b;
    assert n == q * (b * p) + (r * b + n % b);
    assert r * b <= (p - 1) * b;
    Unique(n, b * p, q, r * b + n % b);
  }

  lemma ProductsGrow(a: nat, b: nat, c: nat, d: nat)
    requires a <= b && c <= d
    ensures a * c <= b * d
  {
    assert a * c <= a * d;
    assert a * d <= b * d;
  }

  lemma QuotientBelow(n: nat, b: nat, p: nat)
    requires b > 0 && n < b * p
    ensures n / b < p
  {
    var q := n / b;
    assert n == q * b + n % b;
    if q >= p { ProductsGrow(p, q, b, b); }
  }

  lemma OwnRemainder(n: nat, p: nat)
    requires p > 0
    ensures n % p == n <==> n < p
  {
  }

  lemma Associates(a: int, b: int, c: int)
    ensures a * (b * c) == (a * b) * c
  {
  }
}
