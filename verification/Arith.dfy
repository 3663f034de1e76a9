/**
 The number theory the modular operations rest on: congruence, powers, and division by powers of two
 modulo an odd number.
 */
module Arith {
  import opened Multiples

  /** a and b differ by a multiple of n. */
  predicate Congruent(a: int, b: int, n: nat)
    requires n > 0
  {
    (a - b) % n == 0
  }

  lemma MultipleIsCongruent(a: int, b: int, n: nat, k: int)
    requires n > 0 && a == b + n * k
    ensures Congruent(a, b, n)
  {
    ModZero(a - b, n, k);
  }

  lemma CongruentBy(a: int, b: int, n: nat) returns (k: int)
    requires n > 0 && Congruent(a, b, n)
    ensures a == b + n * k
  {
    k := (a - b) / n;
  }

  lemma CongruentTrans(a: int, b: int, c: int, n: nat)
    requires n > 0 && Congruent(a, b, n) && Congruent(b, c, n)
    ensures Congruent(a, c, n)
  {
    var k := CongruentBy(a, b, n);
    var l := CongruentBy(b, c, n);
    assert n * (k + l) == n * k + n * l;
    MultipleIsCongruent(a, c, n, k + l);
  }

  lemma CongruentSym(a: int, b: int, n: nat)
    requires n > 0 && Congruent(a, b, n)
    ensures Congruent(b, a, n)
  {
    var k := CongruentBy(a, b, n);
    assert n * (-k) == -(n * k);
    MultipleIsCongruent(b, a, n, -k);
  }

  lemma CongruentMul(a: int, b: int, c: int, d: int, n: nat)
    requires n > 0 && Congruent(a, b, n) && Congruent(c, d, n)
    ensures Congruent(a * c, b * d, n)
  {
    var k := CongruentBy(a, b, n);
    var l := CongruentBy(c, d, n);
    Expand(b, n, k, d, l);
    MultipleIsCongruent(a * c, b * d, n, k * d + b * l + n * (k * l));
  }

  lemma Expand(b: int, n: int, k: int, d: int, l: int)
    ensures (b + n * k) * (d + n * l) == b * d + n * (k * d + b * l + n * (k * l))
  {
    assert (b + n * k) * (d + n * l) == b * d + b * (n * l) + (n * k) * d + (n * k) * (n * l);
    assert b * (n * l) == n * (b * l) && (n * k) * d == n * (k * d) && (n * k) * (n * l) == n * (n * (k * l));
    assert n * (k * d + b * l + n * (k * l)) == n * (k * d) + n * (b * l) + n * (n * (k * l));
  }

  lemma CongruentAdd(a: int, b: int, c: int, d: int, n: nat)
    requires n > 0 && Congruent(a, b, n) && Congruent(c, d, n)
    ensures Congruent(a + c, b + d, n) && Congruent(a - c, b - d, n)
  {
    var k := CongruentBy(a, b, n);
    var l := CongruentBy(c, d, n);
    assert n * (k + l) == n * k + n * l && n * (k - l) == n * k - n * l;
    MultipleIsCongruent(a + c, b + d, n, k + l);
    MultipleIsCongruent(a - c, b - d, n, k - l);
  }

  lemma CongruentMod(a: int, n: nat)
    requires n > 0
    ensures Congruent(a, a, n) && Congruent(a % n, a, n) && Congruent(a, a % n, n)
  {
    MultipleIsCongruent(a, a, n, 0);
    MultipleIsCongruent(a, a % n, n, a / n);
    CongruentSym(a, a % n, n);
  }

  /** Below n, congruent numbers are equal. */
  lemma CongruentUnique(a: int, b: int, n: nat)
    requires n > 0 && Congruent(a, b, n) && 0 <= a < n && 0 <= b < n
    ensures a == b
  {
    var k := CongruentBy(a, b, n);
    ScaleBound(n, k);
  }

  function Power(a: int, e: nat): int {
    if e == 0 then 1 else a * Power(a, e - 1)
  }

  lemma PowerOne(a: int)
    ensures Power(a, 1) == a && Power(a, 0) == 1
  {
    assert Power(a, 1) == a * Power(a, 0);
  }

  lemma {:induction false} PowerSum(a: int, d: nat, e: nat)
    ensures Power(a, d + e) == Power(a, d) * Power(a, e)
  {
    if d > 0 {
      PowerSum(a, d - 1, e);
      assert a * (Power(a, d - 1) * Power(a, e)) == (a * Power(a, d - 1)) * Power(a, e);
    }
  }

  lemma {:induction false} PowerMul(a: int, d: nat, e: nat)
    ensures Power(Power(a, d), e) == Power(a, d * e)
  {
    if e == 0 {
      assert d * 0 == 0;
    } else {
      PowerMul(a, d, e - 1);
      PowerSum(a, d, d * (e - 1));
      assert d + d * (e - 1) == d * e;
    }
  }

  lemma {:induction false} PowerCongruent(a: int, b: int, e: nat, n: nat)
    requires n > 0 && Congruent(a, b, n)
    ensures Congruent(Power(a, e), Power(b, e), n)
  {
    if e == 0 {
      CongruentMod(1, n);
    } else {
      PowerCongruent(a, b, e - 1, n);
      CongruentMul(a, b, Power(a, e - 1), Power(b, e - 1), n);
    }
  }

  /** Two can be cancelled modulo an odd number. */
  lemma CancelTwo(x: int, y: int, n: nat)
    requires n % 2 == 1 && Congruent(2 * x, 2 * y, n)
    ensures Congruent(x, y, n)
  {
    var k := CongruentBy(2 * x, 2 * y, n);
    OddTimes(n, k);
    var h := k / 2;
    assert n * (2 * h) == 2 * (n * h);
    MultipleIsCongruent(x, y, n, h);
  }

  /** An odd number times an odd number is odd. */
  lemma OddTimes(n: nat, k: int)
    requires n % 2 == 1
    ensures (n * k) % 2 == 0 ==> k == 2 * (k / 2)
  {
    var m, h := n / 2, k / 2;
    assert (2 * m + 1) * (2 * h + 1) == 2 * (m * (2 * h + 1) + h) + 1;
    assert n == 2 * m + 1 && (k == 2 * h || k == 2 * h + 1);
  }
}
