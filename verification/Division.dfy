/** Floor division by a positive number, for divisors that are not literals. */
module Division {

  lemma MulBounds(p: int, d: int)
    requires p > 0
    ensures d >= 1 ==> p * d >= p
    ensures d <= -1 ==> p * d <= -p
  {
  }

  /** Quotient and remainder are the only numbers that fit. */
  lemma Unique(x: int, p: int, q: int, r: int)
    requires p > 0 && x == p * q + r && 0 <= r < p
    ensures x / p == q && x % p == r
  {
    var d := x / p - q;
    assert x == p * (x / p) + x % p;
    assert p * d == p * (x / p) - p * q;
    MulBounds(p, d);
  }

  lemma Multiple(p: int, k: int)
    requires p > 0
    ensures (p * k) % p == 0 && (p * k) / p == k
  {
    Unique(p * k, p, k, 0);
  }
}
