/** Multiples and remainders. */
module Multiples {

  lemma ModZero(x: int, n: nat, k: int)
    requires n > 0 && x == n * k
    ensures x % n == 0 && x / n == k
  {
    var d := x / n - k;
    assert n * d == n * (x / n) - n * k;
    assert x == n * (x / n) + x % n;
    ScaleBound(n, d);
  }

  lemma ScaleBound(n: nat, d: int)
    ensures d >= 1 ==> n * d >= n
    ensures d <= -1 ==> n * d <= -(n as int)
  {}

  lemma ModSum(x: int, y: int, u: nat)
    requires u > 0 && x % u == 0 && y % u == 0
    ensures (x + y) % u == 0 && (x - y) % u == 0
  {
    var k, l := x / u, y / u;
    assert x == u * k && y == u * l;
    assert u * (k + l) == x + y && u * (k - l) == x - y;
    ModZero(x + y, u, k + l);
    ModZero(x - y, u, k - l);
  }
}
