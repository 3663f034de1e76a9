/** 65537 is prime: three has order 65536 modulo any prime that divides it. */
module FermatPrime {
  import opened Multiples
  import opened Arith
  import opened Fermat

  const F := 65537

  lemma Square(e: nat, x: int, y: int, k: int)
    requires Congruent(Power(3, e), x, F) && x * x == y + F * k
    ensures Congruent(Power(3, 2 * e), y, F)
  {
    hide Power, Congruent;
    PowerSum(3, e, e);
    CongruentMul(Power(3, e), x, Power(3, e), x, F);
    MultipleIsCongruent(x * x, y, F, k);
    CongruentTrans(Power(3, 2 * e), x * x, y, F);
  }

  /** Three to the half of 65536 is minus one. */
  lemma HalfOrder()
    ensures Congruent(Power(3, 32768), -1, F)
  {
    hide Power, Congruent;
    PowerOne(3);
    CongruentMod(3, F);
    Square(1, 3, 9, 0);
    Square(2, 9, 81, 0);
    Square(4, 81, 6561, 0);
    Square(8, 6561, 54449, 656);
    Square(16, 54449, 61869, 45236);
    Square(32, 61869, 19139, 58406);
    Square(64, 19139, 15028, 5589);
    Square(128, 15028, 282, 3446);
    Square(256, 282, 13987, 1);
    Square(512, 13987, 8224, 2985);
    Square(1024, 8224, 65529, 1031);
    Square(2048, 65529, 64, 65521);
    Square(4096, 64, 4096, 0);
    Square(8192, 4096, 65281, 255);
    Square(16384, 65281, 65536, 65025);
    MultipleIsCongruent(65536, -1, F, 1);
    CongruentTrans(Power(3, 32768), 65536, -1, F);
  }

  /** A divisor of the modulus keeps a congruence. */
  lemma Down(x: int, y: int, p: nat, e: int)
    requires p > 0 && F == p * e && Congruent(x, y, F)
    ensures Congruent(x, y, p)
  {
    var k := CongruentBy(x, y, F);
    assert F * k == p * (e * k);
    MultipleIsCongruent(x, y, p, e * k);
  }

  /** Taking the factors two out of a number. */
  lemma {:induction false} OddPart(t: nat) returns (j: nat, m: nat)
    requires t > 0
    ensures t == Power(2, j) * m && m % 2 == 1
  {
    if t % 2 == 1 {
      j, m := 0, t;
    } else {
      j, m := OddPart(t / 2);
      assert Power(2, j + 1) * m == 2 * (Power(2, j) * m);
      j := j + 1;
    }
  }

  lemma {:induction false} MinusOne(m: nat)
    ensures Power(-1, m) == if m % 2 == 1 then -1 else 1
  {
    if m > 0 {
      MinusOne(m - 1);
    }
  }

  /** A number below 65536 has at most fifteen factors two. */
  lemma FewTwos(t: nat, j: nat, m: nat)
    requires 0 < t < 65536 && t == Power(2, j) * m
    ensures j <= 15
  {
    hide Power;
    if j > 15 {
      PowerSum(2, 16, j - 16);
      SixteenTwos();
      Grouped(65536, Power(2, j - 16), m);
      ScaleBound(65536, Power(2, j - 16) * m);
    }
  }

  lemma Swapped(x: int, m: int, w: int)
    ensures (x * m) * w == (x * w) * m
  {}

  lemma Grouped(x: int, y: int, m: int)
    ensures (x * y) * m == x * (y * m)
  {}

  lemma SixteenTwos()
    ensures Power(2, 15) == 32768 && Power(2, 16) == 65536
  {
    assert Power(2, 5) == 32;
    assert Power(2, 10) == 1024;
  }

  /** Modulo a prime below 65537, three raised to some odd multiple of 32768 is one. */
  lemma OddOrder(p: nat) returns (m: nat)
    requires Prime(p) && 3 < p < F
    ensures m % 2 == 1 && Congruent(Power(3, 32768 * m), 1, p)
  {
    hide Power, Congruent;
    var j: nat;
    j, m := OddPart(p - 1);
    FewTwos(p - 1, j, m);
    PowerSum(2, j, 15 - j);
    var w := Power(2, 15 - j);
    assert (p - 1) * w == Power(2, 15) * m by { Swapped(Power(2, j), m, w); }
    SixteenTwos();
    FermatUnit(3, p);
    PowerCongruent(Power(3, p - 1), 1, w, p);
    OnePower(w);
    PowerMul(3, p - 1, w);
  }

  /** No prime below 65537 divides it: that power would be minus one as well. */
  lemma NoPrimeDivisor(p: nat, e: int)
    requires Prime(p) && 3 < p < F
    ensures F != p * e
  {
    hide Power, Congruent;
    var m := OddOrder(p);
    if F == p * e {
      HalfOrder();
      Down(Power(3, 32768), -1, p, e);
      PowerCongruent(Power(3, 32768), -1, m, p);
      PowerMul(3, 32768, m);
      MinusOne(m);
      CongruentSym(Power(3, 32768 * m), -1, p);
      CongruentTrans(-1, Power(3, 32768 * m), 1, p);
      MultipleIsCongruent(p - 1, -1, p, 1);
      CongruentTrans(p - 1, -1, 1, p);
      CongruentUnique(p - 1, 1, p);
    }
  }

  /** The least divisor of a number is prime. */
  lemma {:induction false} PrimeDivisor(n: nat, d: nat) returns (p: nat)
    requires 2 <= d < n && n % d == 0
    ensures Prime(p) && p <= d && n % p == 0
    decreases d
  {
    if Prime(d) {
      p := d;
    } else {
      var c :| 2 <= c < d && d % c == 0;
      var k, l := n / d, d / c;
      assert n == c * (l * k) by { assert (c * l) * k == c * (l * k); }
      ModZero(n, c, l * k);
      p := PrimeDivisor(n, c);
    }
  }

  lemma ModulusIsPrime()
    ensures Prime(F)
  {
    forall d | 2 <= d < F
      ensures F % d != 0
    {
      if F % d == 0 {
        var p := PrimeDivisor(F, d);
        assert p != 2 && p != 3;
        NoPrimeDivisor(p, F / p);
      }
    }
  }
}
