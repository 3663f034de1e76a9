/**
 Reduction modulo a number of at least two words, after `crypt/bigMod.c`: normalisation, the estimate of
 each quotient digit from three words by two, and the adding back.
 */
module Modulo {
  import opened Words
  import opened Karatsuba
  import opened BigNum
  import opened BigShift
  import opened BigMult
  import opened BigDivide

  // ---- one digit ----

  /** The largest digit whose product with m2 fits in x3. */
  function Best(x3: nat, m2: nat): int
    requires m2 > 0
  {
    if Over(x3, m2) < W then Over(x3, m2) else W - 1
  }

  /** The estimate from the top two words of x3 by the top word of m2 is not too small. */
  lemma TopEstimate(x0: Word, x1: Word, x2: Word, m0: Word, ms: Word)
    requires ms >= W / 2 && x2 < ms
    ensures var x3, m2 := x0 + W * (x1 + W * x2), m0 + W * ms;
            0 <= Best(x3, m2) <= Over(x1 + W * x2, ms) < W
  {
    var x3, m2, top := x0 + W * (x1 + W * x2), m0 + W * ms, x1 + W * x2;
    var b := Best(x3, m2);
    DivLeast(x3, m2, 0);
    DivLeast(x3, m2, b);
    MulMono(b, W * ms, m2);
    assert b * (W * ms) == W * (ms * b);
    DivLeast(top, ms, b);
    DivLeast(top, ms, W);
    MulMono(W, x2 + 1, ms);
  }

  lemma BestBounds(x3: nat, m2: nat, q: nat)
    requires m2 > 0 && 0 <= Best(x3, m2) <= q < W
    ensures Prod(m2, q) > x3 ==> q > 0 && Best(x3, m2) <= q - 1
    ensures Prod(m2, q) <= x3 ==> q == Best(x3, m2)
  {
    DivLeast(x3, m2, q);
  }

  /** The number in the three words of x from i - 2. */
  function Three(s: seq<Word>, i: nat): nat
    requires 2 <= i < |s|
  {
    s[i - 2] + W * (s[i - 1] + W * s[i])
  }

  /** One quotient digit: `longBigDivide` on the top words, then down until two words fit. */
  method QuotientDigit(x: BigInt, i: nat, ms2: BigInt, tmp: BigInt, tmp2: BigInt) returns (q: Word)
    requires ms2.Valid() && tmp.Valid() && tmp2.Valid() && x != tmp && x != tmp2 && ms2 != tmp && ms2 != tmp2
    requires tmp != tmp2
    requires 2 <= i < |x.num| && ms2.length == 2 && W / 2 <= ms2.num[1] && x.num[i] <= ms2.num[1]
    requires tmp.sign == POS && |tmp.num| >= 4 && |tmp2.num| == 4
    modifies tmp, tmp2
    ensures tmp.Valid() && tmp2.Valid() && tmp.sign == POS && |tmp.num| >= 4 && |tmp2.num| == 4
    ensures ms2.Mag() > 0 && q == Best(Three(x.num, i), ms2.Mag())
  {
    hide At, Val, Pow, Best, Over, Prod, Shifted;
    var ms := ms2.num[1];
    TwoWordsOf(ms2.num);
    ghost var X3, M2 := Three(x.num, i), ms2.Mag();
    if x.num[i] == ms {
      q := 0xFFFF_FFFF;
      BestAtMost(X3, M2);
    } else {
      tmp.num := tmp.num[1 := x.num[i]][0 := x.num[i - 1]];
      tmp.length := 2;
      TwoWordsOf(tmp.num);
      TopEstimate(x.num[i - 2], x.num[i - 1], x.num[i], ms2.num[0], ms);
      q := LongBigDivide(tmp, ms);
    }
    Row(tmp, ms2, q);
    tmp2.num := tmp2.num[2 := x.num[i]][1 := x.num[i - 1]][0 := x.num[i - 2]];
    tmp2.length := 3;
    ThreeWordsOf(tmp2.num);
    BestBounds(X3, M2, q);
    var r := BigCompare(tmp, tmp2);
    while r > 0
      invariant 0 <= Best(X3, M2) <= q
      invariant tmp.Valid() && tmp2.Valid() && tmp.sign == POS && |tmp.num| >= 4 && |tmp2.num| == 4
      invariant tmp2.Mag() == X3 && (r > 0 <==> Prod(M2, q) > X3)
      decreases q
    {
      BestBounds(X3, M2, q);
      q := q - 1;
      Row(tmp, ms2, q);
      r := BigCompare(tmp, tmp2);
    }
    BestBounds(X3, M2, q);
  }

  lemma BestAtMost(x3: nat, m2: nat)
    requires m2 > 0
    ensures 0 <= Best(x3, m2) <= W - 1
  {
    DivLeast(x3, m2, 0);
  }

  lemma ThreeWordsOf(s: seq<Word>)
    requires |s| >= 3
    ensures Low(s, 3) == s[0] + W * (s[1] + W * s[2])
  {
    AtNext(s, 0, 2);
    TwoWordsOf(s);
    PowTwo();
  }

  /** tmp := q * a. */
  method Row(tmp: BigInt, a: BigInt, q: Word)
    requires tmp.Valid() && a.Valid() && tmp != a
    modifies tmp
    ensures tmp.Valid() && tmp.Trimmed() && tmp.Mag() == Prod(a.Mag(), q) && tmp.sign == POS
    ensures |tmp.num| >= old(|tmp.num|)
  {
    hide At, Val, Pow, Prod, Shifted;
    tmp.Reset(0);
    NumtypeBigmult(a, q, tmp, 0);
    ShiftedNone(q, a.Mag());
    ProdZero(a.Mag(), q);
  }

  /** Knuth's bound: with a normalised divisor the digit from its two top words is the true digit or
      one more, so x - q*d lies strictly above -d; and it reaches d only when x is W*d. */
  lemma DigitBound(x: nat, d: nat, p: nat, x3: nat, rx: nat, m2: nat, rd: nat, q: nat)
    requires x == p * x3 + rx && rx < p && d == p * m2 + rd && rd < p
    requires m2 >= W * (W / 2) && x <= W * d && q == Best(x3, m2)
    ensures Prod(q, d) - d < x <= Prod(q, d) + d && (x - Prod(q, d) == d <==> x == W * d)
    ensures var t := Best(x, d); q == t || q == t + 1
  {
    hide Over, Best, Prod;
    BestAtMost(x3, m2);
    MulMono(p, 1, m2);
    BestAtMost(x, d);
    DigitNotBelow(x, d, p, x3, rx, m2, rd, q);
    DigitNotAbove(x, d, p, x3, rx, m2, rd, q);
    DigitTrue(x, d, q);
  }

  lemma DigitNotAbove(x: nat, d: nat, p: nat, x3: nat, rx: nat, m2: nat, rd: nat, q: nat)
    requires x == p * x3 + rx && rx < p && d == p * m2 + rd && rd < p
    requires m2 >= W * (W / 2) && q == Best(x3, m2)
    ensures x > Prod(q, d) - d
  {
    BestAtMost(x3, m2);
    DivLeast(x3, m2, q);
    MulMono(p, m2 * q, x3);
    assert Prod(q, d) == p * (m2 * q) + q * rd by {
      assert q * (p * m2 + rd) == p * (m2 * q) + q * rd;
    }
    MulMono(q, rd, p);
    MulMono(p, q, W);
    MulMono(p, W, m2);
    assert q * p == p * q;
  }

  lemma DigitNotBelow(x: nat, d: nat, p: nat, x3: nat, rx: nat, m2: nat, rd: nat, q: nat)
    requires x == p * x3 + rx && rx < p && d == p * m2 + rd && rd < p
    requires m2 > 0 && d > 0 && q == Best(x3, m2)
    ensures Best(x, d) <= q
  {
    BestAtMost(x, d);
    var t := Best(x, d);
    DivLeast(x, d, t);
    assert d * t == p * (m2 * t) + t * rd by {
      assert (p * m2 + rd) * t == p * (m2 * t) + t * rd;
    }
    MulMono(t, 0, rd);
    if m2 * t > x3 {
      MulMono(p, x3 + 1, m2 * t);
      PlusDistribute(p, x3, 1);
    }
    DivLeast(x3, m2, t);
  }

  lemma DigitTrue(x: nat, d: nat, q: nat)
    requires d > 0 && x <= W * d && 0 <= Best(x, d) <= q < W && x > Prod(q, d) - d
    ensures x - Prod(q, d) <= d && (x - Prod(q, d) == d <==> x == W * d)
    ensures q <= Best(x, d) + 1
  {
    var t := Best(x, d);
    DivLeast(x, d, W);
    DivLeast(x, d, t);
    DivLeast(x, d, t + 1);
    assert Prod(q, d) == d * q;
    if q > t + 1 {
      MulMono(d, t + 2, q);
      PlusDistribute(d, t + 1, 1);
    }
    MulMono(d, t, q);
    PlusDistribute(d, t, 1);
  }

  lemma NothingLost(x: nat, t: nat, i: nat)
    requires i >= 1 && x < Pow(i + 1) && (t == 0 || t >= Pow(i - 1))
    ensures !Loses(x, t)
  {
    hide Pow, WordsOf;
    WordsOfBounds(t);
    if t > 0 && WordsOf(t) + 1 < i + 1 {
      PowMono(WordsOf(t), i - 1);
    } else if t > 0 {
      PowMono(i + 1, WordsOf(t) + 1);
    }
  }

  /** Takes q times div from x, and adds div back once if that was too much. */
  method TakeOff(x: BigInt, div: BigInt, tmp: BigInt, q: Word, ghost i: nat)
    requires x.Valid() && div.Valid() && tmp.Valid() && x != div && x != tmp && div != tmp
    requires x.sign == POS && div.sign == POS && |tmp.num| >= 4
    requires i >= 1 && x.Mag() < Pow(i + 1) && div.Mag() >= Pow(i - 1)
    requires Prod(q, div.Mag()) - div.Mag() < x.Mag() <= Prod(q, div.Mag()) + div.Mag()
    modifies x, tmp, div`length, div`sign
    ensures x.Valid() && tmp.Valid() && div.Valid() && div.Mag() == old(div.Mag()) && div.sign == POS
    ensures x.Trimmed() && x.sign == POS && tmp.sign == POS && |tmp.num| >= 4
    ensures x.Mag() == old(x.Mag()) - Prod(q, div.Mag()) + if old(x.Mag()) < Prod(q, div.Mag()) then div.Mag() else 0
    ensures forall l :: old(Clean(x, l)) ==> Clean(x, l)
  {
    hide At, Val, Pow, Prod, Low, WordsOf, Loses, Clean;
    ghost var X, D := x.Mag(), div.Mag();
    Row(tmp, div, q);
    ProdZero(q, D);
    RowLosesNothing(X, D, q, i);
    BigSubtract(x, tmp, x);
    if x.sign == NEG {
      BigAdd(x, div, x);
    }
  }

  lemma RowLosesNothing(X: nat, D: nat, q: nat, i: nat)
    requires i >= 1 && X < Pow(i + 1) && D >= Pow(i - 1)
    ensures !Loses(X, Prod(q, D)) && Prod(q, D) >= 0
  {
    hide Pow, Loses;
    if q > 0 {
      MulMono(D, 1, q);
    }
    NothingLost(X, Prod(q, D), i);
  }

  // ---- normalisation ----

  /** `msb_table8`: the number of bits of a byte. */
  function Bits8(b: nat): nat {
    if b == 0 then 0 else 1 + Bits8(b / 2)
  }

  /** `msb`. */
  function Msb(a: Word): nat {
    if a >= 0x8000_0000 then 32
    else if a / H != 0 then
      if a / H / 256 != 0 then 24 + Bits8(a / H / 256) else 16 + Bits8(a / H % 256)
    else
      if a % H / 256 != 0 then 8 + Bits8(a % H / 256) else Bits8(a % H % 256)
  }

  lemma {:induction false} Bits8Bounds(b: nat)
    requires 0 < b < 256
    ensures 1 <= Bits8(b) <= 8 && Two(Bits8(b) - 1) <= b < Two(Bits8(b))
  {
    if b >= 128 {
      Bits8Small(b / 2, 7);
    } else {
      Bits8Small(b, 7);
    }
    if b > 1 {
      Bits8Bounds(b / 2);
    }
  }

  lemma {:induction false} Bits8Small(b: nat, n: nat)
    requires b < Two(n)
    ensures Bits8(b) <= n
  {
    if b > 0 {
      Bits8Small(b / 2, n - 1);
    }
  }

  /** A byte with its bits above it: the bits of the byte at n are the bits of the word. */
  lemma ByteAt(a: nat, b: nat, n: nat)
    requires 0 < b < 256 && b == a / Two(n)
    ensures Two(n + Bits8(b) - 1) <= a < Two(n + Bits8(b))
  {
    hide Two;
    Bits8Bounds(b);
    var k := Bits8(b);
    TwoSum(n, k - 1);
    TwoSum(n, k);
    DivBounds(a, Two(n));
    MulMono(Two(n), Two(k - 1), b);
    MulMono(Two(n), b + 1, Two(k));
    PlusDistribute(Two(n), b, 1);
  }

  lemma TwoBytes()
    ensures Two(0) == 1 && Two(8) == 256 && Two(16) == H && Two(24) == 256 * H && Two(31) == W / 2 && Two(32) == W
  {
    assert Two(8) == 256;
    assert Two(7) == 128;
    TwoSum(8, 8);
    TwoSum(8, 16);
    TwoSum(7, 24);
    Two32();
  }

  lemma MsbIs(a: Word)
    requires a > 0
    ensures 1 <= Msb(a) <= 32 && Two(Msb(a) - 1) <= a < Two(Msb(a)) && (Msb(a) == 32 <==> a >= W / 2)
  {
    hide Two;
    TwoBytes();
    if a < 0x8000_0000 {
      var n, b := TopByte(a);
      ByteAt(a, b, n);
      Bits8Bounds(b);
      MsbBelow(a);
    }
  }

  /** The byte `msb` looks up and how many bits are below it. */
  lemma TopByte(a: Word) returns (n: nat, b: nat)
    requires 0 < a < W / 2
    ensures 0 < b < 256 && b == a / Two(n) && Msb(a) == n + Bits8(b)
  {
    hide Two, Bits8;
    TwoBytes();
    n := if a / H / 256 != 0 then 24 else if a / H != 0 then 16 else if a / 256 != 0 then 8 else 0;
    b := if a / H / 256 != 0 then a / H / 256 else if a / H != 0 then a / H else if a / 256 != 0 then a / 256 else a;
  }

  lemma MsbBelow(a: Word)
    requires 0 < a < W / 2
    ensures Msb(a) <= 31
  {
    TwoBytes();
    if a / H / 256 != 0 {
      assert Two(7) == 128;
      Bits8Small(a / H / 256, 7);
    } else {
      assert a / H % 256 > 0 ==> Bits8(a / H % 256) <= 8 by { if a / H % 256 > 0 { Bits8Bounds(a / H % 256); } }
      assert a % H / 256 > 0 ==> Bits8(a % H / 256) <= 8 by { if a % H / 256 > 0 { Bits8Bounds(a % H / 256); } }
      assert a % H % 256 > 0 ==> Bits8(a % H % 256) <= 8 by { if a % H % 256 > 0 { Bits8Bounds(a % H % 256); } }
    }
  }

  /** Shifting a trimmed number left until its top bit is set keeps its length. */
  lemma Normalised(s: seq<Word>, k: nat, n: nat)
    requires 1 <= k <= |s| && 0 < s[k - 1] < W / 2 && n == 32 - Msb(s[k - 1])
    ensures 0 < n < 32 && Pow(k - 1) * (W / 2) <= Left(Low(s, k), n) < Pow(k)
  {
    hide At, Val, Pow, Two, Msb;
    var t, v := s[k - 1], Pow(k - 1);
    MsbIs(t);
    AtNext(s, 0, k - 1);
    LowBound(s, k - 1);
    TwoBytes();
    TwoSum(n, Msb(t) - 1);
    TwoSum(n, Msb(t));
    MulMono(v, t, t);
    NormalSum(Two(n), Low(s, k), v, t, Two(Msb(t) - 1), Two(Msb(t)));
  }

  lemma NormalSum(p: nat, a: nat, v: nat, t: nat, lo: nat, hi: nat)
    requires v * t <= a < v * t + v && lo <= t < hi && p * lo == W / 2 && p * hi == W
    ensures v * (W / 2) <= p * a < v * W
  {
    MulMono(v, lo, t);
    MulMono(p, v * lo, a);
    assert p * (v * lo) == v * (p * lo);
    MulMono(v, t + 1, hi);
    PlusDistribute(v, t, 1);
    MulMono(p, a + 1, v * hi);
    PlusDistribute(p, a, 1);
    assert p * (v * hi) == v * (p * hi);
  }

  /** A number of k words of which the top bit is set. */
  lemma TopBit(s: seq<Word>, k: nat)
    requires 1 <= k <= |s| && Pow(k - 1) * (W / 2) <= Low(s, k)
    ensures s[k - 1] >= W / 2
  {
    hide At, Val, Pow;
    AtNext(s, 0, k - 1);
    LowBound(s, k - 1);
    var v := Pow(k - 1);
    if s[k - 1] < W / 2 {
      MulMono(v, s[k - 1] + 1, W / 2);
      PlusDistribute(v, s[k - 1], 1);
    }
  }

  /** Brings the top bit of m to the top of its word, and shifts x with it. */
  method Normalise(m: BigInt, x: BigInt) returns (n: nat)
    requires m.Valid() && m.Trimmed() && m.length >= 2 && x.Valid() && x.Trimmed() && x != m && x.Mag() > 0
    modifies m, x
    ensures n < 32 && m.Valid() && m.length == old(m.length) && m.Mag() == Left(old(m.Mag()), n)
    ensures m.num[m.length - 1] >= W / 2
    ensures x.Valid() && x.Trimmed() && x.Mag() == Left(old(x.Mag()), n)
    ensures m.sign == old(m.sign) && x.sign == old(x.sign)
  {
    hide At, Val, Pow, Two, Left, Msb, WordsOf;
    n := 0;
    ghost var M, X, k := m.Mag(), x.Mag(), m.length;
    LeftZero(M);
    LeftZero(X);
    if m.num[m.length - 1] < 0x8000_0000 {
      MsbIs(m.num[m.length - 1]);
      n := 32 - Msb(m.num[m.length - 1]);
      Normalised(m.num, m.length, n);
      PowMono(0, k - 1);
      LeftPositive(X, n);
      BigLeftShift(m, n, m);
      NormalLength(m, k);
      BigLeftShift(x, n, x);
      TopBit(m.num, k);
    }
  }

  lemma LeftZero(m: nat)
    ensures Left(m, 0) == m
  {}

  lemma LeftPositive(m: nat, n: nat)
    requires m > 0
    ensures Left(m, n) >= m
  {
    hide Two;
    MulMono(m, 1, Two(n));
  }

  lemma NormalLength(m: BigInt, k: nat)
    requires m.Valid() && m.Trimmed() && k >= 1 && Pow(k - 1) * (W / 2) <= m.Mag() < Pow(k)
    ensures m.length == k && m.Mag() > 0
  {
    hide Pow, WordsOf;
    MulMono(Pow(k - 1), 1, W / 2);
    WordsOfUnique(m.Mag(), k);
    TrimmedLength(m);
  }

  // ---- the digit loop ----

  /** The three words of x from i - 2, and m's top two words at the same place. */
  lemma Places(x: BigInt, m: BigInt, i: nat, k: nat, X: nat, D: nat, M2: nat) returns (p: nat, rx: nat, rd: nat)
    requires x.Valid() && m.Valid() && m.length == k >= 2 && i >= k && i < |x.num| && Clean(x, i + 1)
    requires X == x.Mag() < Pow(i + 1) && D == WordsLeft(m.Mag(), i - k)
    requires M2 == m.num[k - 2] + W * m.num[k - 1]
    ensures X == p * Three(x.num, i) + rx && rx < p == Pow(i - 2)
    ensures D == p * M2 + rd && rd < p
  {
    hide At, Val, Pow;
    p := Pow(i - 2);
    rx := Low(x.num, i - 2);
    LowBound(x.num, i - 2);
    if x.length <= i + 1 {
      LowZeros(x.num, x.length, i + 1);
    } else {
      LongLow(x, i + 1);
    }
    ThreeAt(x.num, i);
    AtSplit(x.num, 0, i - 2, 3);
    ghost var low := Low(m.num, k - 2);
    AtSplit(m.num, 0, k - 2, 2);
    TwoAt(m.num, k - 2);
    LowBound(m.num, k - 2);
    PowSum(i - k, k - 2);
    rd := Pow(i - k) * low;
    DivisorPlaces(Pow(i - k), Pow(k - 2), low, M2);
  }

  lemma DivisorPlaces(p: nat, q: nat, low: nat, m2: nat)
    requires low < q && p > 0
    ensures p * (low + q * m2) == (p * q) * m2 + p * low && 0 <= p * low < p * q
  {
    assert p * (q * m2) == (p * q) * m2;
    PlusDistribute(p, low, q * m2);
    MulMono(p, low + 1, q);
    PlusDistribute(p, low, 1);
    MulMono(p, 0, low);
  }

  /** A number below W^n has nothing at or above its n-th word. */
  lemma LongLow(x: BigInt, n: nat)
    requires x.Valid() && n <= x.length && x.Mag() < Pow(n)
    ensures Low(x.num, n) == x.Mag()
  {
    hide At, Val, Pow;
    AtSplit(x.num, 0, n, x.length - n);
    if At(x.num, n, x.length - n) > 0 {
      MulMono(Pow(n), 1, At(x.num, n, x.length - n));
    }
  }

  lemma TwoAt(s: seq<Word>, p: nat)
    requires p + 2 <= |s|
    ensures At(s, p, 2) == s[p] + W * s[p + 1]
  {
    AtZero(s, p);
    AtNext(s, p, 0);
    AtNext(s, p, 1);
    PowTwo();
  }

  lemma ThreeAt(s: seq<Word>, i: nat)
    requires 2 <= i < |s|
    ensures At(s, i - 2, 3) == Three(s, i)
  {
    TwoAt(s, i - 2);
    AtNext(s, i - 2, 2);
    PowTwo();
  }

  /** x is at most W times the divisor, so its top word is at most that of the divisor. */
  lemma TopWordFits(X: nat, D: nat, p: nat, rx: nat, rd: nat, x3: nat, m2: nat, x0: Word, x1: Word, x2: Word,
                    m0: Word, ms: Word)
    requires X == p * x3 + rx && rx < p && D == p * m2 + rd && rd < p && X <= W * D
    requires x3 == x0 + W * (x1 + W * x2) && m2 == m0 + W * ms
    ensures x2 <= ms
  {
    assert W * D == p * (W * m2) + W * rd;
    PlusDistribute(p, W * m2, W);
    if x3 >= W * m2 + W {
      MulMono(p, W * m2 + W, x3);
    }
  }

  lemma OneWordDown(M: nat, j: nat)
    ensures WordsRight(WordsLeft(M, j + 1), 1) == WordsLeft(M, j) && WordsLeft(M, j + 1) == W * WordsLeft(M, j)
  {
    PowTwo();
    assert (W * Pow(j)) * M == W * (Pow(j) * M);
    DivModUnique(WordsLeft(M, j + 1), W, WordsLeft(M, j), 0);
  }

  lemma DivisorBounds(m: BigInt, i: nat, k: nat)
    requires m.Valid() && m.length == k >= 2 && m.num[k - 1] >= W / 2 && i >= k
    ensures Pow(i - 1) <= WordsLeft(m.Mag(), i - k) && W * WordsLeft(m.Mag(), i - k) < Pow(i + 1)
    ensures WordsLeft(m.Mag(), i - k) > 0 && Pow(i - k) > 0
  {
    hide At, Val, Pow;
    var M, p := m.Mag(), Pow(i - k);
    TopIsPositive(m.num, k);
    PowSum(i - k, k - 1);
    PowSum(i - k, k);
    PowSum(1, i);
    PowTwo();
    MulMono(p, Pow(k - 1), M);
    MulMono(p, M + 1, Pow(k));
    PlusDistribute(p, M, 1);
  }

  lemma FitsTop(x: BigInt, m: BigInt, i: nat, k: nat, X: nat, D: nat, M2: nat, p: nat, rx: nat, rd: nat)
    requires m.length == k >= 2 && k <= |m.num| && m.num[k - 1] >= W / 2 && 2 <= i < |x.num|
    requires M2 == m.num[k - 2] + W * m.num[k - 1] && X <= W * D
    requires X == p * Three(x.num, i) + rx && rx < p && D == p * M2 + rd && rd < p
    ensures x.num[i] <= m.num[k - 1] && M2 >= W * (W / 2)
  {
    TopWordFits(X, D, p, rx, rd, Three(x.num, i), M2, x.num[i - 2], x.num[i - 1], x.num[i], m.num[k - 2], m.num[k - 1]);
  }

  lemma QuotientAfter(X: nat, D: nat, q: nat, x: nat)
    requires x == X - Prod(q, D) + if X < Prod(q, D) then D else 0
    ensures exists k: int :: X == x + Prod(k, D)
  {
    var k := if X < Prod(q, D) then q - 1 else q;
    assert Prod(q - 1, D) == Prod(q, D) - D;
    assert X == x + Prod(k, D);
  }

  /** One turn of the loop on x and the divisor, which has i - k words below the modulus. */
  method Turn(x: BigInt, div: BigInt, m: BigInt, ms2: BigInt, tmp: BigInt, tmp2: BigInt, i: nat, k: nat)
    requires x != div && x != m && x != ms2 && x != tmp && x != tmp2 && div != m && div != ms2 && div != tmp
    requires div != tmp2
    requires m != ms2 && m != tmp && m != tmp2 && ms2 != tmp && ms2 != tmp2 && tmp != tmp2
    requires x.Valid() && div.Valid() && m.Valid() && ms2.Valid() && tmp.Valid() && tmp2.Valid()
    requires x.sign == POS && div.sign == POS && tmp.sign == POS && |tmp.num| >= 4 && |tmp2.num| == 4
    requires m.length == k >= 2 && m.num[k - 1] >= W / 2 && ms2.length == 2 && ms2.num[0] == m.num[k - 2]
    requires ms2.num[1] == m.num[k - 1]
    requires k <= i < |x.num| && Clean(x, i + 1) && div.Mag() == WordsLeft(m.Mag(), i + 1 - k) && x.Mag() <= div.Mag()
    modifies x, div, tmp, tmp2
    ensures x.Valid() && x.Trimmed() && div.Valid() && tmp.Valid() && tmp2.Valid()
    ensures x.sign == POS && div.sign == POS && tmp.sign == POS && |tmp.num| >= 4 && |tmp2.num| == 4
    ensures forall l :: old(Clean(x, l)) ==> Clean(x, l)
    ensures div.Mag() == WordsLeft(m.Mag(), i - k) && x.Mag() <= div.Mag()
    ensures x.Mag() == div.Mag() <==> old(x.Mag() == div.Mag())
    ensures exists q: int :: old(x.Mag()) == x.Mag() + Prod(q, div.Mag())
  {
    hide At, Val, Pow, Best, Over, Prod, Three, WordsLeft, WordsRight, Clean, Loses, WordsOf;
    ghost var D1, X, M := div.Mag(), x.Mag(), m.Mag();
    ShiftWordsRight(div, 1);
    OneWordDown(M, i - k);
    ghost var D := div.Mag();
    DivisorBounds(m, i, k);
    ghost var M2 := m.num[k - 2] + W * m.num[k - 1];
    ghost var p, rx, rd := Places(x, m, i, k, X, D, M2);
    FitsTop(x, m, i, k, X, D, M2, p, rx, rd);
    TwoWordsOf(ms2.num);
    var q := QuotientDigit(x, i, ms2, tmp, tmp2);
    DigitBound(X, D, p, Three(x.num, i), rx, M2, rd, q);
    TakeOff(x, div, tmp, q, i);
    QuotientAfter(X, D, q, x.Mag());
  }

  // ---- the whole reduction ----

  /** What `bigMod` leaves of a modulo m: the residue, except that a multiple of m by a power of W
      leaves m itself, because the first comparison is strict. */
  ghost function Residue(a: nat, m: nat): nat
    requires m > 0
  {
    if exists j: nat :: a == WordsLeft(m, j) then m else a % m
  }

  /** The residue is congruent and at most m. */
  lemma ResidueMeaning(a: nat, m: nat)
    requires m > 0
    ensures Residue(a, m) <= m && Residue(a, m) % m == a % m
    ensures Residue(a, m) == m <==> exists j: nat :: a == WordsLeft(m, j)
    ensures a < m ==> Residue(a, m) == a
  {
    hide Pow, WordsLeft;
    if j: nat :| a == WordsLeft(m, j) {
      ShiftedMultiple(m, j);
      OneLeft(m);
      ShiftedMultiple(m, 0);
    } else {
      ModTwice(a, m);
    }
  }

  lemma ShiftedMultiple(m: nat, j: nat)
    requires m > 0
    ensures WordsLeft(m, j) % m == 0 && WordsLeft(m, j) >= m
  {
    hide Pow;
    var p := Pow(j);
    DivModUnique(p * m, m, p, 0);
    MulMono(m, 1, p);
  }

  lemma ModTwice(a: nat, m: nat)
    requires m > 0
    ensures 0 <= a % m < m && (a % m) % m == a % m && (a < m ==> a % m == a)
  {
    DivModUnique(a % m, m, 0, a % m);
    if a < m {
      DivModUnique(a, m, 0, a);
    }
  }

  /** The residue is what is left at most m, with m left only from a multiple by a power of W. */
  lemma ResidueIs(a: nat, m: nat, x: nat, k: int, j: nat)
    requires m > 0 && a == x + Prod(k, m) && x <= m && (x == m <==> a == WordsLeft(m, j))
    requires forall i: nat :: a == WordsLeft(m, i) ==> i == j
    ensures x == Residue(a, m)
  {
    hide Pow, WordsLeft;
    if x < m {
      assert Prod(k, m) == m * k;
      DivModUnique(a, m, k, x);
    }
  }

  lemma MoreQuotient(a: int, x: int, x': int, K: int, q: int, m: nat, j: nat)
    requires a == x + Prod(K, m) && x == x' + Prod(q, WordsLeft(m, j))
    ensures a == x' + Prod(K + q * Pow(j), m)
  {
    assert q * (Pow(j) * m) == (q * Pow(j)) * m;
    assert (K + q * Pow(j)) * m == K * m + (q * Pow(j)) * m;
  }

  /** The digit loop takes x, at most the divisor, down to at most the modulus. */
  method DigitLoop(x: BigInt, div: BigInt, m: BigInt, ms2: BigInt, tmp: BigInt, tmp2: BigInt, l: nat, k: nat)
    requires x != div && x != m && x != ms2 && x != tmp && x != tmp2 && div != m && div != ms2 && div != tmp
    requires div != tmp2
    requires m != ms2 && m != tmp && m != tmp2 && ms2 != tmp && ms2 != tmp2 && tmp != tmp2
    requires x.Valid() && x.Trimmed() && div.Valid() && m.Valid() && ms2.Valid() && tmp.Valid() && tmp2.Valid()
    requires x.sign == POS && div.sign == POS && tmp.sign == POS && |tmp.num| >= 4 && |tmp2.num| == 4
    requires m.length == k >= 2 && m.num[k - 1] >= W / 2 && ms2.length == 2 && ms2.num[0] == m.num[k - 2]
    requires ms2.num[1] == m.num[k - 1]
    requires k <= l && Clean(x, l) && div.Mag() == WordsLeft(m.Mag(), l - k) && x.Mag() <= div.Mag()
    modifies x, div, tmp, tmp2
    ensures x.Valid() && x.Trimmed() && x.sign == POS && x.Mag() <= m.Mag()
    ensures x.Mag() == m.Mag() <==> old(x.Mag() == div.Mag())
    ensures exists q: int :: old(x.Mag()) == x.Mag() + Prod(q, m.Mag())
  {
    hide At, Val, Pow, Low, Prod, WordsLeft, Clean;
    ghost var X, M, K: int := x.Mag(), m.Mag(), 0;
    ProdZero(K, M);
    OneLeft(M);
    var i := l - 1;
    while i > k - 1
      invariant k - 1 <= i < l
      invariant x.Valid() && x.Trimmed() && div.Valid() && tmp.Valid() && tmp2.Valid() && Clean(x, l)
      invariant x.sign == POS && div.sign == POS && tmp.sign == POS && |tmp.num| >= 4 && |tmp2.num| == 4
      invariant div.Mag() == WordsLeft(M, i + 1 - k) && x.Mag() <= div.Mag()
      invariant x.Mag() == div.Mag() <==> old(x.Mag() == div.Mag())
      invariant X == x.Mag() + Prod(K, M)
    {
      ghost var X1 := x.Mag();
      CleanBelow(x, l, i + 1);
      Turn(x, div, m, ms2, tmp, tmp2, i, k);
      ghost var q: int :| X1 == x.Mag() + Prod(q, div.Mag());
      MoreQuotient(X, X1, x.Mag(), K, q, M, i - k);
      K := K + q * Pow(i - k);
      i := i - 1;
    }
  }

  lemma OneLeft(M: nat)
    ensures WordsLeft(M, 0) == M
  {}

  lemma CleanBelow(x: BigInt, l: nat, n: nat)
    requires Clean(x, l) && n <= l
    ensures Clean(x, n)
  {}

  /** The numbers the loop keeps: the top two words of m, and room for products. */
  method Parts(m: BigInt) returns (ms2: BigInt, tmp: BigInt, tmp2: BigInt)
    requires m.Valid() && m.length >= 2
    ensures fresh(ms2) && fresh(tmp) && fresh(tmp2) && ms2 != tmp && ms2 != tmp2 && tmp != tmp2
    ensures ms2.Valid() && ms2.length == 2 && ms2.num[0] == m.num[m.length - 2] && ms2.num[1] == m.num[m.length - 1]
    ensures tmp.Valid() && tmp.sign == POS && |tmp.num| == 4 && tmp2.Valid() && |tmp2.num| == 4
  {
    ms2 := Fixed(2);
    tmp2 := Fixed(4);
    tmp := Fixed(4);
    var k := m.length;
    ms2.num := ms2.num[1 := m.num[k - 1]][0 := m.num[k - 2]];
    ms2.length := 2;
  }

  /** The first subtraction: x has as many words as the divisor, of which the top bit is set. */
  method FirstTake(x: BigInt, div: BigInt)
    requires x.Valid() && x.Trimmed() && div.Valid() && div.Trimmed() && x != div && x.sign == POS && div.sign == POS
    requires x.length == div.length && Pow(div.length - 1) * (W / 2) <= div.Mag()
    modifies x, div`length, div`sign
    ensures div.Valid() && div.Mag() == old(div.Mag()) && div.sign == POS
    ensures x.Valid() && x.Trimmed() && x.sign == POS && x.Mag() <= div.Mag() && Clean(x, old(x.length))
    ensures old(x.Mag()) == x.Mag() + Prod(if old(x.Mag()) > div.Mag() then 1 else 0, div.Mag())
    ensures x.Mag() == div.Mag() <==> old(x.Mag()) == div.Mag()
  {
    hide At, Val, Pow, Low, WordsOf;
    TrimmedLength(x);
    TrimmedLength(div);
    BelowTwice(x, div);
    var r := BigCompare(x, div);
    TrimmedLength(x);
    TrimmedLength(div);
    if r > 0 {
      BigSub(x, div, x);
    }
  }

  lemma BelowTwice(x: BigInt, div: BigInt)
    requires x.Valid() && div.Valid() && x.length == div.length && Pow(div.length - 1) * (W / 2) <= div.Mag()
    ensures x.Mag() < 2 * div.Mag()
  {
    hide At, Val, Pow;
    LowBound(x.num, x.length);
    PowSum(1, x.length - 1);
    PowTwo();
  }

  /** x has at least the words of m, the shifted modulus as many as x, and no other shift is x. */
  lemma Lengths(x: BigInt, m: BigInt)
    requires x.Valid() && x.Trimmed() && m.Valid() && m.Trimmed() && x.Mag() >= m.Mag() && m.num[m.length - 1] >= W / 2
    ensures x.length >= m.length
    ensures var D := WordsLeft(m.Mag(), x.length - m.length);
            WordsOf(D) == x.length && Pow(x.length - 1) * (W / 2) <= D
    ensures forall j: nat :: x.Mag() == WordsLeft(m.Mag(), j) ==> j == x.length - m.length
  {
    hide At, Val, Pow, WordsOf, WordsLeft;
    TrimmedLength(x);
    TrimmedLength(m);
    LongerIsLarger(x, m);
    ShiftLength(m, x.length - m.length);
    forall j: nat | x.Mag() == WordsLeft(m.Mag(), j)
      ensures j == x.length - m.length
    {
      ShiftLength(m, j);
    }
  }

  /** j words more make j words more. */
  lemma ShiftLength(m: BigInt, j: nat)
    requires m.Valid() && m.num[m.length - 1] >= W / 2
    ensures WordsOf(WordsLeft(m.Mag(), j)) == m.length + j
    ensures Pow(m.length + j - 1) * (W / 2) <= WordsLeft(m.Mag(), j)
  {
    hide At, Val, Pow, WordsOf;
    var k, M, p := m.length, m.Mag(), Pow(j);
    AtNext(m.num, 0, k - 1);
    MulMono(Pow(k - 1), W / 2, m.num[k - 1]);
    LowBound(m.num, k);
    PowSum(j, k - 1);
    PowSum(j, k);
    MulMono(p, Pow(k - 1) * (W / 2), M);
    assert p * (Pow(k - 1) * (W / 2)) == Pow(j + k - 1) * (W / 2);
    MulMono(p, M + 1, Pow(k));
    PlusDistribute(p, M, 1);
    MulMono(Pow(j + k - 1), 1, W / 2);
    WordsOfUnique(WordsLeft(M, j), k + j);
  }

  /** Scaling both by a power of two scales the residue. */
  lemma ResidueScale(a: nat, m: nat, n: nat)
    requires m > 0
    ensures Left(m, n) > 0 && Residue(Left(a, n), Left(m, n)) == Left(Residue(a, m), n)
  {
    hide Pow, Two;
    var t := Two(n);
    MulMono(t, 1, m);
    forall j: nat
      ensures Left(a, n) == WordsLeft(Left(m, n), j) <==> a == WordsLeft(m, j)
    {
      assert Pow(j) * (t * m) == t * (Pow(j) * m);
      SameScale(t, a, Pow(j) * m);
    }
    if j: nat :| a == WordsLeft(m, j) {
      assert Left(a, n) == WordsLeft(Left(m, n), j);
    } else {
      ScaledMod(t, a, m);
    }
  }

  lemma SameScale(t: nat, a: nat, b: nat)
    requires t > 0
    ensures t * a == t * b <==> a == b
  {
    if a < b { MulMono(t, a + 1, b); PlusDistribute(t, a, 1); }
    if b < a { MulMono(t, b + 1, a); PlusDistribute(t, b, 1); }
  }

  lemma ScaledMod(t: nat, a: nat, m: nat)
    requires t > 0 && m > 0
    ensures t * m > 0 && (t * a) % (t * m) == t * (a % m)
  {
    MulMono(t, 1, m);
    assert t * (m * (a / m) + a % m) == (t * m) * (a / m) + t * (a % m);
    MulMono(t, a % m + 1, m);
    PlusDistribute(t, a % m, 1);
    DivModUnique(t * a, t * m, a / m, t * (a % m));
  }

  lemma RightOfLeft(m: nat, n: nat)
    ensures Right(Left(m, n), n) == m
  {
    DivModUnique(Left(m, n), Two(n), m, 0);
  }

  /** Takes m off x, which has its sign cleared and is at least m. */
  method Reduce(m: BigInt, x: BigInt)
    requires m.Valid() && m.Trimmed() && m.length >= 2 && x.Valid() && x.Trimmed() && x != m && x.Mag() >= m.Mag()
    requires x.sign == POS
    modifies m, x
    ensures m.Valid() && m.Trimmed() && m.Mag() == old(m.Mag()) && m.length == old(m.length) && m.sign == old(m.sign)
    ensures m.Mag() > 0 && x.Valid() && x.Trimmed() && x.Mag() == Residue(old(x.Mag()), m.Mag()) && x.sign == POS
  {
    hide At, Val, Pow, Two, Left, Right, WordsLeft, Residue, Clean, ZeroFrom, WordsOf, Prod;
    ghost var A, M := x.Mag(), m.Mag();
    TopIsPositive(m.num, m.length);
    TrimmedLength(m);
    var n := Normalise(m, x);
    LeftOrder(M, A, n);
    ReduceNormalised(m, x);
    ResidueScale(A, M, n);
    LeftZero(M);
    LeftZero(Residue(A, M));
    if n > 0 {
      RightOfLeft(M, n);
      RightOfLeft(Residue(A, M), n);
      BigRightShift(m, n);
      BigRightShift(x, n);
    }
    TrimmedLength(m);
    x.sign := POS;
  }

  lemma LeftOrder(m: nat, a: nat, n: nat)
    requires m <= a
    ensures Left(m, n) <= Left(a, n)
  {
    MulMono(Two(n), m, a);
  }

  /** The reduction by a modulus of which the top bit is set. */
  method ReduceNormalised(m: BigInt, x: BigInt)
    requires m.Valid() && m.length >= 2 && m.num[m.length - 1] >= W / 2
    requires x.Valid() && x.Trimmed() && x != m && x.Mag() >= m.Mag() && x.sign == POS
    modifies x
    ensures m.Mag() > 0 && x.Valid() && x.Trimmed() && x.Mag() == Residue(old(x.Mag()), m.Mag()) && x.sign == POS
  {
    hide At, Val, Pow, WordsLeft, Residue, ZeroFrom, WordsOf, Prod, Clean;
    ghost var A, M := x.Mag(), m.Mag();
    var l, k := x.length, m.length;
    Lengths(x, m);
    TopIsPositive(m.num, k);
    var div := new BigInt(0);
    ShiftWordsLeft(m, div, l - k);
    TrimmedLength(div);
    var ms2, tmp, tmp2 := Parts(m);
    FirstTake(x, div);
    ghost var X1 := x.Mag();
    DigitLoop(x, div, m, ms2, tmp, tmp2, l, k);
    ghost var q: int :| X1 == x.Mag() + Prod(q, M);
    ghost var first: int := if A > WordsLeft(M, l - k) then 1 else 0;
    assert X1 == x.Mag() + Prod(q, WordsLeft(M, 0)) by { OneLeft(M); }
    WholeQuotient(A, X1, x.Mag(), first, q, M, l - k);
    ghost var K: int :| A == x.Mag() + Prod(K, M);
    ResidueIs(A, M, x.Mag(), K, l - k);
  }

  lemma WholeQuotient(a: int, x: int, x': int, first: int, q: int, m: nat, j: nat)
    requires a == x + Prod(first, WordsLeft(m, j)) && x == x' + Prod(q, m)
    ensures exists k: int :: a == x' + Prod(k, m)
  {
    hide Pow;
    assert first * (Pow(j) * m) == (first * Pow(j)) * m;
    var k := first * Pow(j) + q;
    assert k * m == (first * Pow(j)) * m + q * m;
    assert a == x' + Prod(k, m);
  }

  /** `bigMod`. */
  method BigMod(a: BigInt, m: BigInt, x: BigInt) returns (code: int)
    requires a.Valid() && a.Trimmed() && m.Valid() && m.Trimmed() && x.Valid() && x != m && a != m
    requires m.length >= 2 || m.Mag() <= 1
    modifies x, m, a`length, a`sign
    ensures m.Valid() && m.Trimmed() && m.Mag() == old(m.Mag()) && m.length == old(m.length)
    ensures m.Mag() > 0 ==> m.sign == old(m.sign)
    ensures a != x ==>
              a.Valid() && a.Trimmed() && a.Value() == old(a.Value()) && (a.sign == old(a.sign) || a.sign == POS)
    ensures x.Valid() && x.Trimmed()
    ensures m.Mag() == 0 ==> code == -1 && x.Mag() == 0
    ensures m.Mag() == 1 ==> code == 0 && x.Mag() == 0
    ensures m.length >= 2 ==> m.Mag() > 0 && code == 0 && x.Mag() == Residue(old(a.Mag()), m.Mag())
    ensures (x.Mag() > 0 ==> x.sign == old(a.sign)) && (old(a.sign) == POS ==> x.sign == POS)
  {
    hide At, Val, Pow, Residue;
    ZeroIsWord(m);
    TopIsPositive(m.num, m.length);
    if m.length >= 2 {
      PowMono(1, m.length - 1);
      PowTwo();
    }
    if m.length == 1 && m.num[0] == 0 {
      x.Reset(0);
      return -1;
    }
    if m.length == 1 && m.num[0] == 1 {
      x.Reset(0);
      return 0;
    }
    ghost var A := a.Mag();
    if a != x {
      BigCopy(a, x);
      TrimmedCopy(a, x);
    }
    var savesign := a.sign;
    ResidueMeaning(A, m.Mag());
    var r := BigCompare(a, m);
    if r < 0 {
      return 0;
    }
    x.sign := POS;
    Reduce(m, x);
    x.sign := savesign;
    return 0;
  }
}
