/** Facts about products, quotients and multiples that the scheduling and counting code rests on. */
module Arithmetic {
  lemma {:induction false} ProductOrder(x: int, y: int, d: int)
    requires d > 0
    ensures x < y ==> x * d + d <= y * d
    decreases y - x
  {
    if x < y {
      assert y * d == (y - 1) * d + d;
      ProductOrder(x, y - 1, d);
    }
  }

  /** Quotient and remainder by a positive divisor are unique. */
  lemma QuotientIs(a: int, b: int, q: int)
    requires b > 0 && q * b <= a < (q + 1) * b
    ensures a / b == q
  {
    ProductOrder(a / b, q, b);
    ProductOrder(q, a / b, b);
    assert a == (a / b) * b + a % b;
  }

  lemma DivMonotone(a: nat, b: nat, d: int)
    requires a <= b && d > 0
    ensures a / d <= b / d
  {
    ProductOrder(b / d, a / d, d);
    assert a == (a / d) * d + a % d && b == (b / d) * d + b % d;
  }

  /** Counting up to the next number passes one more multiple of k exactly when that number is one. */
  lemma NextMultiple(n: nat, k: int)
    requires k > 0
    ensures (n + 1) / k == n / k + (if (n + 1) % k == 0 then 1 else 0)
  {
    var q, r := n / k, n % k;
    assert n == q * k + r;
    assert (q + 1) * k == q * k + k && (q + 2) * k == q * k + 2 * k;
    if r == k - 1 {
      QuotientIs(n + 1, k, q + 1);
    } else {
      QuotientIs(n + 1, k, q);
    }
    assert n + 1 == ((n + 1) / k) * k + (n + 1) % k;
  }

  function Absolute(k: int): nat { if k < 0 then -k else k }

  /** The multiples of k are those of its absolute value. */
  lemma SignDoesNotMatter(n: nat, k: int)
    requires k != 0
    ensures n % k == 0 <==> n % Absolute(k) == 0
  {
    if k < 0 {
      var q := -(n / k);
      assert n == (n / k) * k + n % k && (n / k) * k == q * -k && (q + 1) * -k == q * -k + -k;
      QuotientIs(n, -k, q);
      assert n == (n / -k) * -k + n % -k;
    }
  }
}
