/** Quotients and remainders by a variable divisor. */
module Arithmetic {
  lemma MulMonotone(x: int, y: int, b: nat)
    ensures x <= y ==> x * b <= y * b
  {
  }

  lemma MulDistributes(x: int, y: int, b: int)
    ensures (x + y) * b == x * b + y * b && (x - y) * b == x * b - y * b
  {
  }

  lemma MulAssociates(a: int, b: int, c: int)
    ensures (a * b) * c == a * (b * c)
  {
  }

  lemma Mul4(m: nat, b: nat)
    ensures m * (4 * b) == 4 * (m * b)
  {
  }

  /** A count of bits into words of 32 and octets of 8. */
  lemma BitIndex(n: nat)
    ensures 8 * n / 32 == n / 4 && 8 * n % 32 / 8 == n % 4
  {
    assert n == 4 * (n / 4) + n % 4;
  }

  lemma QuotientUnique(n: int, q: int, r: int, b: nat)
    requires 0 <= r < b && n == q * b + r
    ensures n / b == q && n % b == r
  {
    var q' := n / b;
    assert n == q' * b + n % b;
    MulDistributes(q', 1, b);
    MulDistributes(q, 1, b);
    MulMonotone(q' + 1, q, b);
    MulMonotone(q + 1, q', b);
  }

  lemma QuotientShift(n: int, m: int, b: nat)
    requires b > 0
    ensures (n + m * b) / b == n / b + m && (n + m * b) % b == n % b
    ensures (n - m * b) / b == n / b - m && (n - m * b) % b == n % b
  {
    assert n == (n / b) * b + n % b;
    MulDistributes(n / b, m, b);
    QuotientUnique(n + m * b, n / b + m, n % b, b);
    QuotientUnique(n - m * b, n / b - m, n % b, b);
  }

  lemma QuotientMonotone(x: int, y: int, b: nat)
    requires b > 0 && x <= y
    ensures x / b <= y / b
  {
    assert x == (x / b) * b + x % b && y == (y / b) * b + y % b;
    MulDistributes(y / b, 1, b);
    MulMonotone(y / b + 1, x / b, b);
  }

  function Quotient(n: nat, b: nat): (q: nat)
    requires b > 0
    ensures q * b <= n < q * b + b
  {
    assert n == (n / b) * b + n % b;
    MulMonotone(n / b, -1, b);
    n / b
  }
}
