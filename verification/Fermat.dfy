/**
 What RSA rests on: Euclid's lemma and Fermat's little theorem.
 */
module Fermat {
  import opened Arith
  import opened Multiples

  predicate Prime(p: nat) {
    p >= 2 && forall d :: 2 <= d < p ==> p % d != 0
  }

  /** A common divisor that is a combination of the two numbers. */
  lemma {:induction false} Bezout(a: nat, b: nat) returns (g: nat, x: int, y: int)
    requires a > 0
    ensures g > 0 && a % g == 0 && b % g == 0 && g == a * x + b * y
    decreases b
  {
    if b == 0 {
      g, x, y := a, 1, 0;
      ModZero(a, a, 1);
      ModZero(0, a, 0);
    } else {
      var x', y';
      g, x', y' := Bezout(b, a % b);
      var q := a / b;
      BezoutStep(a, b, q, a % b, g, x', y');
      x, y := y', x' - q * y';
      DividesSum(a, b, q, a % b, g);
    }
  }

  lemma BezoutStep(a: int, b: int, q: int, r: int, g: int, x: int, y: int)
    requires a == b * q + r && g == b * x + r * y
    ensures g == a * y + b * (x - q * y)
  {
    assert (b * q) * y == b * (q * y);
    assert (b * q + r) * y == (b * q) * y + r * y;
    assert b * (x - q * y) == b * x - b * (q * y);
  }

  lemma DividesSum(a: int, b: int, q: int, r: int, g: nat)
    requires g > 0 && a == b * q + r && b % g == 0 && r % g == 0
    ensures a % g == 0
  {
    var k, l := b / g, r / g;
    assert (g * k) * q == g * (k * q);
    assert g * (k * q + l) == g * (k * q) + g * l;
    ModZero(a, g, k * q + l);
  }

  /** A number prime to p: nothing but multiples of p bring it to a multiple of p. */
  lemma Euclid(p: nat, a: nat, x: int)
    requires Prime(p) && a % p != 0 && Congruent(a * x, 0, p)
    ensures Congruent(x, 0, p)
  {
    var g, s, t := Bezout(p, a);
    OneDivides(p, a, g);
    var k := CongruentBy(a * x, 0, p);
    assert x == p * (s * x) + (a * x) * t by {
      assert 1 * x == (p * s + a * t) * x;
      assert (p * s + a * t) * x == p * (s * x) + (a * x) * t;
    }
    assert (p * k) * t == p * (k * t);
    assert p * (s * x + k * t) == p * (s * x) + p * (k * t);
    MultipleIsCongruent(x, 0, p, s * x + k * t);
  }

  /** A common divisor of a prime and a number it does not divide is one. */
  lemma OneDivides(p: nat, a: nat, g: nat)
    requires Prime(p) && a % p != 0 && g > 0 && p % g == 0 && a % g == 0
    ensures g == 1
  {
    var k := p / g;
    assert p == g * k;
    if g > p {
      NoSmallMultiple(p, g, k);
    }
  }

  lemma NoSmallMultiple(p: nat, g: nat, k: int)
    requires p > 0 && p == g * k
    ensures g <= p
  {
    ScaleBound(g, k);
  }

  // ---- binomial coefficients ----

  function Choose(n: nat, k: nat): nat {
    if k == 0 then 1 else if n == 0 then 0 else Choose(n - 1, k - 1) + Choose(n - 1, k)
  }

  lemma {:induction false} ChooseNone(n: nat, k: nat)
    requires k > n
    ensures Choose(n, k) == 0
  {
    if n > 0 {
      ChooseNone(n - 1, k - 1);
      ChooseNone(n - 1, k);
    }
  }

  lemma {:induction false} ChooseAll(n: nat)
    ensures Choose(n, n) == 1
  {
    if n > 0 {
      ChooseAll(n - 1);
      ChooseNone(n - 1, n);
    }
  }

  /** k times a binomial coefficient of n is n times one of n - 1. */
  lemma {:induction false} ChooseScaled(n: nat, k: nat)
    requires n > 0 && k > 0
    ensures k * Choose(n, k) == n * Choose(n - 1, k - 1)
  {
    if n == 1 {
      assert Choose(0, k - 1) == if k == 1 then 1 else 0;
    } else {
      ChooseScaled(n - 1, k);
      if k > 1 {
        ChooseScaled(n - 1, k - 1);
      }
      ChooseSum(k, n, Choose(n - 1, k - 1), Choose(n - 1, k), Choose(n - 2, k - 1), if k > 1 then Choose(n - 2,
                k - 2) else 0);
    }
  }

  lemma ChooseSum(k: int, n: int, c: int, d: int, e: int, f: int)
    requires k * d == (n - 1) * e && (k - 1) * c == (n - 1) * f && c == e + f
    ensures k * (c + d) == n * c
  {
    assert (n - 1) * (e + f) == (n - 1) * e + (n - 1) * f;
    assert k * (c + d) == k * c + k * d && (k - 1) * c == k * c - c && (n - 1) * c == n * c - c;
  }

  /** The terms below the k-th of the expansion of (a + 1)^n. */
  function Expansion(a: int, n: nat, k: nat): int {
    if k == 0 then 0 else Expansion(a, n, k - 1) + Choose(n, k - 1) * Power(a, k - 1)
  }

  lemma {:induction false} ExpansionStep(a: int, n: nat, k: nat)
    ensures Expansion(a, n + 1, k + 1) == Expansion(a, n, k + 1) + a * Expansion(a, n, k)
  {
    if k == 0 {
      assert Choose(n + 1, 0) == Choose(n, 0) == 1;
      assert Expansion(a, n, 1) == Expansion(a, n, 0) + Choose(n, 0) * Power(a, 0);
      assert Expansion(a, n + 1, 1) == Expansion(a, n + 1, 0) + Choose(n + 1, 0) * Power(a, 0);
    } else {
      ExpansionStep(a, n, k - 1);
      TermSum(a, Choose(n, k - 1), Choose(n, k), Power(a, k - 1), Expansion(a, n, k - 1));
    }
  }

  lemma TermSum(a: int, c: int, d: int, x: int, s: int)
    ensures (c + d) * (a * x) == d * (a * x) + a * (c * x)
    ensures a * (s + c * x) == a * s + a * (c * x)
  {
    assert (c + d) * (a * x) == c * (a * x) + d * (a * x);
    assert c * (a * x) == a * (c * x);
  }

  /** The expansion begins with 1 and has no term above the last power. */
  lemma LastTerm(a: int, n: nat)
    ensures Expansion(a, 0, 1) == 1 == Power(a + 1, 0)
    ensures n > 0 ==> Expansion(a, n - 1, n + 1) == Expansion(a, n - 1, n)
  {
    assert Choose(0, 0) == 1 && Power(a, 0) == 1;
    assert Expansion(a, 0, 1) == Expansion(a, 0, 0) + Choose(0, 0) * Power(a, 0);
    if n > 0 {
      ChooseNone(n - 1, n);
      assert Expansion(a, n - 1, n + 1) == Expansion(a, n - 1, n) + 0 * Power(a, n);
    }
  }

  lemma PowerStep(a: int, n: nat)
    requires n > 0
    ensures Power(a + 1, n) == Power(a + 1, n - 1) + a * Power(a + 1, n - 1)
  {
    var e := Power(a + 1, n - 1);
    assert (a + 1) * e == e + a * e;
  }

  /** The binomial theorem. */
  lemma {:induction false} Binomial(a: int, n: nat)
    ensures Expansion(a, n, n + 1) == Power(a + 1, n)
  {
    hide Choose;
    LastTerm(a, n);
    if n > 0 {
      Binomial(a, n - 1);
      ExpansionStep(a, n - 1, n);
      PowerStep(a, n);
    }
  }

  /** A prime divides its binomial coefficients but the first and the last. */
  lemma PrimeChoose(p: nat, k: nat)
    requires Prime(p) && 0 < k < p
    ensures Congruent(Choose(p, k), 0, p)
  {
    ChooseScaled(p, k);
    MultipleIsCongruent(k * Choose(p, k), 0, p, Choose(p - 1, k - 1));
    ModSmall(k, p);
    Euclid(p, k, Choose(p, k));
  }

  lemma ModSmall(k: nat, p: nat)
    requires 0 < k < p
    ensures k % p == k != 0
  {}

  lemma {:induction false} ExpansionPrime(a: int, p: nat, k: nat)
    requires Prime(p) && 1 <= k <= p
    ensures Congruent(Expansion(a, p, k), 1, p)
  {
    if k == 1 {
      assert Choose(p, 0) == 1 && Power(a, 0) == 1;
      assert Expansion(a, p, 1) == Expansion(a, p, 0) + Choose(p, 0) * Power(a, 0);
      CongruentMod(1, p);
    } else {
      ExpansionPrime(a, p, k - 1);
      PrimeChoose(p, k - 1);
      CongruentMod(Power(a, k - 1), p);
      CongruentMul(Choose(p, k - 1), 0, Power(a, k - 1), Power(a, k - 1), p);
      CongruentAdd(Expansion(a, p, k - 1), 1, Choose(p, k - 1) * Power(a, k - 1), 0, p);
    }
  }

  /** Fermat's little theorem, by induction on the base. */
  lemma {:induction false} FermatPower(a: nat, p: nat)
    requires Prime(p)
    ensures Congruent(Power(a, p), a, p)
  {
    if a == 0 {
      assert Power(0, p) == 0;
      CongruentMod(0, p);
    } else {
      FermatPower(a - 1, p);
      Binomial(a - 1, p);
      ExpansionPrime(a - 1, p, p);
      ChooseAll(p);
      var x := Power(a - 1, p);
      assert Expansion(a - 1, p, p + 1) == Expansion(a - 1, p, p) + Choose(p, p) * x;
      CongruentAdd(Expansion(a - 1, p, p), 1, x, a - 1, p);
    }
  }

  lemma FermatUnit(a: nat, p: nat)
    requires Prime(p) && a % p != 0
    ensures Congruent(Power(a, p - 1), 1, p)
  {
    FermatPower(a, p);
    assert Power(a, p) == a * Power(a, p - 1);
    CongruentMod(a, p);
    CongruentAdd(Power(a, p), a, a, a, p);
    assert a * (Power(a, p - 1) - 1) == Power(a, p) - a;
    Euclid(p, a, Power(a, p - 1) - 1);
    CongruentMod(1, p);
    CongruentAdd(Power(a, p - 1) - 1, 0, 1, 1, p);
  }

  /** Exponents that are one modulo p - 1 leave every number alone modulo p. */
  lemma Exponent(m: nat, f: nat, p: nat)
    requires Prime(p) && f > 0 && Congruent(f, 1, p - 1)
    ensures Congruent(Power(m, f), m, p)
  {
    var k := CongruentBy(f, 1, p - 1);
    CongruentMod(m, p);
    if m % p == 0 {
      assert Power(m, f) == m * Power(m, f - 1);
      CongruentMod(Power(m, f - 1), p);
      CongruentSym(m % p, m, p);
      CongruentMul(m, 0, Power(m, f - 1), Power(m, f - 1), p);
      CongruentSym(m, 0, p);
      CongruentTrans(Power(m, f), 0, m, p);
    } else {
      NotNegative(f, p - 1, k);
      FermatUnit(m, p);
      PowerCongruent(Power(m, p - 1), 1, k, p);
      OnePower(k);
      PowerMul(m, p - 1, k);
      PowerSum(m, 1, (p - 1) * k);
      PowerOne(m);
      CongruentMul(m, m, Power(m, (p - 1) * k), 1, p);
    }
  }

  lemma NotNegative(f: int, p: nat, k: int)
    requires f > 0 && p > 0 && f == 1 + p * k
    ensures k >= 0
  {
    if k < 0 {
      ScaleBound(p, k);
    }
  }

  lemma {:induction false} OnePower(k: nat)
    ensures Power(1, k) == 1
  {
    if k > 0 {
      OnePower(k - 1);
    }
  }
}
