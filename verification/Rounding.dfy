/** Integer division as the source rounds it, and the arithmetic behind it. */
module Rounding {

  /** `a // b`: rounds towards minus infinity whatever the signs. */
  function FloorDiv(a: int, b: int): (q: int)
    requires b != 0
    ensures b > 0 ==> q * b <= a < q * b + b
    ensures b < 0 ==> q * b >= a > q * b + b
  {
    if b > 0 then a / b else (-a) / (-b)
  }

  /** `math.ceil(a / b)`, exactly. */
  function CeilDiv(a: int, b: int): (k: int)
    requires b > 0
    ensures (k - 1) * b < a <= k * b
  {
    -((-a) / b)
  }

  /** Multiplying by something non-negative keeps the order. */
  lemma ScaleUp(a: int, b: int, m: nat)
    requires a <= b
    ensures a * m <= b * m
  {
  }

  /** The only multiple of `m` nearer to zero than `m` is zero. */
  lemma NearMultiple(d: int, m: nat)
    requires 0 - m < d * m < m
    ensures d == 0
  {
    if d > 0 {
      ScaleUp(1, d, m);
    } else if d < 0 {
      ScaleUp(d, -1, m);
    }
  }

  /** A quotient and a remainder in range are the quotient and the remainder. */
  lemma DivIs(x: int, m: nat, q: int, r: int)
    requires m > 0 && x == q * m + r && 0 <= r < m
    ensures x / m == q && x % m == r
  {
    var p, s := x / m, x % m;
    assert x == p * m + s;
    assert (p - q) * m == p * m - q * m;
    NearMultiple(p - q, m);
  }
}
