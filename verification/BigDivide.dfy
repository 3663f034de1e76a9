/**
 Division by one word, after `crypt/longBigDivide.c`: the quotient of two words by a normalised word,
 found sixteen bits at a time.
 */
module BigDivide {
  import opened Words
  import opened Karatsuba
  import opened BigNum
  import opened BigShift
  import opened BigMult

  const H := 0x1_0000

  /** The n words of src times q, in the low n + 1 words of c. */
  method PutProduct(c: BigInt, q: Word, src: BigInt, n: nat)
    requires c != src && n < |c.num| && n <= |src.num|
    modifies c`num
    ensures |c.num| == old(|c.num|) && Low(c.num, n + 1) == Prod(q, Low(src.num, n))
  {
    hide At, Val, Pow, Shifted;
    for i := 0 to n + 1
      invariant |c.num| == old(|c.num|) && ZeroFrom(c.num, 0, i)
    {
      c.num := c.num[i := 0];
    }
    ghost var s := c.num;
    LowZeros(s, 0, n);
    AtZero(s, 0);
    var carry := LmultInto(c, 0, q, src, n);
    WordStep(c.num, n, carry, carry, 0, Prod(q, Low(src.num, n)), 0) by {
      ShiftedNone(q, Low(src.num, n));
      assert 0 + n == n;
    }
    c.num := c.num[n := carry];
  }

  lemma ShiftedNone(m: nat, x: nat)
    ensures Shifted(0, m, x) == Prod(m, x)
  {}

  lemma TwoWordsOf(s: seq<Word>)
    requires |s| >= 2
    ensures Low(s, 2) == s[0] + W * s[1]
  {
    AtNext(s, 0, 1);
    OneWord(s);
    assert Pow(1) == W;
  }

  function Over(n: nat, d: nat): int
    requires d > 0
  {
    n / d
  }

  /** The first estimate of a digit, from the high half of the divisor. */
  function Guess(s: nat, d: nat): int
    requires d / H > 0
  {
    if s / H == d / H then 0xFFFF else s / (d / H)
  }

  /** One sixteen-bit digit of the quotient: the estimate from the high half of d is never too
      small, and comes down to the digit. */
  method HalfDigit(tmp: BigInt, ms2: BigInt, num: BigInt, s: nat, d: Word) returns (q: nat)
    requires tmp.Valid() && ms2.Valid() && num.Valid() && tmp != ms2 && tmp != num && ms2 != num && |tmp.num| >= 3
    requires ms2.num[0] == d >= W / 2 && s == Over(num.Mag(), H) && num.Mag() < d * H
    modifies tmp, num`length, num`sign
    ensures num.Valid() && num.Mag() == old(num.Mag())
    ensures q == Over(num.Mag(), d) && q < H
    ensures tmp.Valid() && |tmp.num| == old(|tmp.num|) && (old(tmp.sign) == POS ==> tmp.sign == POS)
    ensures old(num.sign) == POS ==> num.sign == POS
  {
    hide At, Val, Pow, Over, Guess, Prod;
    ghost var N := num.Mag();
    HalfEstimate(N, s, d);
    q := Guess(s, d);
    OneWord(ms2.num);
    PutProduct(tmp, q, ms2, 1);
    tmp.length := 2;
    var r := BigCompare(tmp, num);
    while r > 0
      invariant Over(N, d) <= q < H
      invariant tmp.Valid() && |tmp.num| == old(|tmp.num|) && tmp.Mag() == Prod(q, d) && Clean(tmp, 2)
      invariant tmp.length <= 2
      invariant num.Valid() && num.Mag() == N && (old(num.sign) == POS ==> num.sign == POS)
      invariant (old(tmp.sign) == POS ==> tmp.sign == POS)
      invariant r > 0 <==> Prod(q, d) > N
      decreases q
    {
      DigitTooLarge(N, d, q);
      q := q - 1;
      ghost var t := tmp.num;
      PutProduct(tmp, q, ms2, 1);
      StillShort(t, tmp.num, tmp.length, q, d);
      r := BigCompare(tmp, num);
    }
    DigitFound(N, d, q);
  }

  lemma DivBounds(n: nat, d: nat)
    requires d > 0
    ensures 0 <= n / d && d * (n / d) <= n < d * (n / d) + d
  {}

  /** A quotient is at least every q whose product fits, and below every q whose product does not. */
  lemma DivLeast(n: nat, d: nat, q: nat)
    requires d > 0
    ensures q <= n / d <==> d * q <= n
  {
    DivBounds(n, d);
    if q <= n / d {
      MulMono(d, q, n / d);
    } else {
      MulMono(d, n / d + 1, q);
      PlusDistribute(d, n / d, 1);
    }
  }

  lemma HighHalf(n: nat, s: nat, d: nat)
    requires W / 2 <= d < W && s == Over(n, H) && n < d * H
    ensures d / H > 0 && s / H <= d / H && (s / H != d / H ==> s / (d / H) < H)
  {
    DivLeast(n, H, d);
    var dhi := d / H;
    if s / H < dhi {
      DivLeast(s, dhi, H);
    }
  }

  lemma HalfEstimate(n: nat, s: nat, d: nat)
    requires W / 2 <= d < W && s == Over(n, H) && n < d * H
    ensures d / H > 0 && 0 <= Over(n, d) <= Guess(s, d) < H
  {
    HighHalf(n, s, d);
    DivLeast(n, d, H);
    var t, dhi := n / d, d / H;
    DivBounds(n, d);
    MulMono(t, dhi * H, d);
    assert H * (dhi * t) == t * (dhi * H);
    DivLeast(n, H, dhi * t);
    DivLeast(s, dhi, t);
  }

  lemma DigitTooLarge(n: nat, d: nat, q: nat)
    requires d > 0 && Over(n, d) <= q && Prod(q, d) > n
    ensures q > 0 && Over(n, d) <= q - 1
  {
    DivLeast(n, d, q);
  }

  lemma DigitFound(n: nat, d: nat, q: nat)
    requires d > 0 && Over(n, d) <= q && Prod(q, d) <= n
    ensures q == Over(n, d)
  {
    DivLeast(n, d, q);
  }

  /** A product that lost its second word has none with a smaller digit. */
  lemma StillShort(t: seq<Word>, t': seq<Word>, n: nat, q: nat, d: nat)
    requires 1 <= n <= 2 <= |t| == |t'| && Low(t, n) == Prod(q + 1, d) && Low(t', 2) == Prod(q, d)
    ensures Low(t', n) == Prod(q, d) && ZeroFrom(t', n, 2)
  {
    hide At, Val, Pow;
    if n == 1 {
      OneWord(t);
      OneWord(t');
      TwoWordsOf(t');
      assert Prod(q + 1, d) == Prod(q, d) + d;
    }
  }

  lemma HalfShift(d: Word)
    ensures ((d * H) % W) + W * (d / H) == d * H && d / H < H
  {}

  /** SETUP: a number zero with storage for n words. */
  method Fixed(n: nat) returns (b: BigInt)
    requires n > 0
    ensures fresh(b) && b.Valid() && b.Trimmed() && b.Mag() == 0 && b.sign == POS && b.length == 1 && |b.num| == n
  {
    b := new BigInt(0);
    b.Guarantee(n);
  }

  /** `longBigDivide`: the quotient of a two-word number by a word of 32 bits above its high word. */
  method LongBigDivide(big: BigInt, d: Word) returns (r: Word)
    requires big.Valid() && big.length == 2 && big.sign == POS && W / 2 <= d && big.num[1] < d
    ensures r == Over(big.Mag(), d)
  {
    hide At, Val, Pow, Right, Prod, Two, Over, Loses, ZeroFrom;
    var div := Fixed(2);
    var x := Fixed(2);
    var tmp := Fixed(3);
    var tmp2 := Fixed(2);
    var ms2 := Fixed(1);
    ms2.Reset(d);
    ghost var X := big.Mag();
    CopyBelow(big, x, div, d);
    var s := x.num[1];
    FirstHalf(X, d, s, x.num[0]);
    BitsRightTo(x, 16, tmp2);
    var q := HalfDigit(tmp, ms2, tmp2, s, d);
    FirstDigit(X, d, q);
    TakeDigit(x, tmp, div, q, d);
    WholeWords(x);
    SecondHalf(x.Mag(), x.num[0], x.num[1], d);
    r := q * H;
    s := (x.num[1] % H) * H + x.num[0] / H;
    JoinDigits(X, d, q, x.Mag());
    q := HalfDigit(tmp, ms2, x, s, d);
    r := r + q;
  }

  /** x := big, which is less than d in the high word, so nothing is subtracted from it. */
  method CopyBelow(big: BigInt, x: BigInt, div: BigInt, d: Word)
    requires big.Valid() && x.Valid() && div.Valid() && big != x && x != div && big != div
    requires big.length == 2 == |x.num| == |div.num| && big.num[1] < d && big.sign == POS
    modifies x, div
    ensures x.Valid() && div.Valid() && |div.num| == 2 && x.Mag() == big.Mag() && x.sign == POS && x.length <= 2
    ensures |x.num| == 2 && Clean(x, 2)
    ensures x.num[1] == big.num[1] && big.Mag() == x.num[0] + W * x.num[1]
  {
    hide At, Val, Pow;
    div.num := div.num[0 := 0][1 := d];
    div.length := 2;
    TwoCopied(big, x);
    BelowDivisor(x, div, d);
    var above := BigCompare(x, div);
    assert above < 0;
  }

  /** x := x - q * d * 2^16, with the product in tmp. */
  method TakeDigit(x: BigInt, tmp: BigInt, div: BigInt, q: Word, d: Word)
    requires x.Valid() && tmp.Valid() && div.Valid() && x != tmp && x != div && tmp != div
    requires x.sign == POS && tmp.sign == POS && x.length <= 2 == |x.num| == |div.num| && |tmp.num| == 3 && Clean(x, 2)
    requires 0 <= x.Mag() - Prod(q, d * H) < d * H
    modifies x, tmp, div
    ensures x.Valid() && tmp.Valid() && |tmp.num| == 3 && x.Mag() == old(x.Mag()) - Prod(q, d * H)
    ensures x.length <= 2 && Clean(x, 2)
  {
    hide At, Val, Pow, Prod, Loses, Low;
    ghost var X := x.Mag();
    ShortIsSmall(x);
    div.num := div.num[0 := (d * H) % W][1 := d / H];
    div.length := 2;
    HalfShift(d);
    TwoWordsOf(div.num);
    PutProduct(tmp, q, div, 2);
    tmp.length := 3;
    SmallLosesNothing(X, tmp.Mag());
    BigSubtract(x, tmp, x);
    SmallIsShort(x);
  }

  lemma ShortIsSmall(x: BigInt)
    requires x.Valid() && x.length <= 2
    ensures x.Mag() < W * W
  {
    hide At, Val, Pow;
    PowTwo();
    LowBound(x.num, x.length);
    PowMono(x.length, 2);
  }

  lemma SmallIsShort(x: BigInt)
    requires x.Valid() && x.Trimmed() && x.Mag() < W * W
    ensures x.length <= 2
  {
    hide At, Val, Pow;
    PowTwo();
    TopIsPositive(x.num, x.length);
    if x.length > 2 {
      PowMono(2, x.length - 1);
    }
  }

  method TwoCopied(big: BigInt, x: BigInt)
    requires big.Valid() && x.Valid() && big != x && big.length == 2 == |x.num|
    modifies x
    ensures x.Valid() && x.Mag() == big.Mag() == big.num[0] + W * big.num[1] && x.length == 2 && x.sign == big.sign
    ensures x.num[0] == big.num[0] && x.num[1] == big.num[1] && |x.num| == 2
  {
    TwoWordsOf(big.num);
    BigCopy(big, x);
  }

  /** The two words of a number of at most two words, trimmed or not. */
  lemma WholeWords(x: BigInt)
    requires x.Valid() && x.length <= 2 && Clean(x, 2)
    ensures x.Mag() == x.num[0] + W * x.num[1]
  {
    hide At, Val, Pow;
    LowZeros(x.num, x.length, 2);
    TwoWordsOf(x.num);
  }

  lemma BelowDivisor(x: BigInt, div: BigInt, d: Word)
    requires x.Valid() && div.Valid() && x.length == 2 == div.length && x.num[1] < d && div.num[0] == 0
    requires div.num[1] == d
    ensures x.Mag() < div.Mag()
  {
    hide At, Val, Pow;
    TwoWordsOf(x.num);
    TwoWordsOf(div.num);
  }

  lemma FirstHalf(X: nat, d: nat, s: Word, lo: Word)
    requires X == lo + W * s && s < d
    ensures Right(X, 16) == Over(X, H) && Over(Over(X, H), H) == s && Over(X, H) < d * H
  {
    assert Two(8) == 256;
    TwoSum(8, 8);
    var h := lo / H;
    DivModUnique(X, H, h + H * s, lo % H);
    DivModUnique(X / H, H, s, h);
    MulMono(H, s + 1, d);
  }

  lemma FirstDigit(X: nat, d: nat, q: nat)
    requires d > 0 && q == Over(Over(X, H), d)
    ensures 0 <= X - Prod(q, d * H) < d * H
  {
    var n := X / H;
    assert n == d * q + n % d && X == H * n + X % H;
    assert Prod(q, d * H) == H * (d * q);
    MulMono(H, n % d + 1, d);
  }

  lemma SmallLosesNothing(u: nat, v: nat)
    requires u < W * W
    ensures !Loses(u, v)
  {
    hide WordsOf, Pow;
    PowMono(2, WordsOf(v) + 1);
    PowTwo();
  }

  lemma PowTwo()
    ensures Pow(1) == W && Pow(2) == W * W
  {
    assert Pow(1) == W * Pow(0);
    assert Pow(2) == W * Pow(1);
  }

  lemma SecondHalf(Y: nat, lo: Word, hi: Word, d: Word)
    requires Y == lo + W * hi && Y < d * H
    ensures (hi % H) * H + lo / H == Over(Y, H) && hi < H
  {
    MulMono(H, d, W);
    DivModUnique(Y, H, lo / H + H * hi, lo % H);
  }

  lemma JoinDigits(X: nat, d: nat, q: nat, Y: nat)
    requires d > 0 && X == Prod(q, d * H) + Y
    ensures Over(X, d) == q * H + Over(Y, d)
  {
    assert Prod(q, d * H) == d * (q * H);
    assert Y == d * (Y / d) + Y % d;
    PlusDistribute(d, q * H, Y / d);
    DivModUnique(X, d, q * H + Y / d, Y % d);
  }
}
