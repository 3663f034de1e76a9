/**
 Shifts of multi-precision numbers by whole words and by bits: `bigleftshift` and `bigrightshift` of
 `crypt/bigmath.c`, `crypt/bigLeftShift.c` and `crypt/bigRightShift.c`. The target may be the operand.
 */
module BigShift {
  import opened Words
  import opened Karatsuba
  import opened BigNum

  lemma {:induction false} TwoSum(m: nat, n: nat)
    ensures Two(m + n) == Two(m) * Two(n)
  {
    if n > 0 {
      TwoSum(m, n - 1);
      assert Two(m) * (2 * Two(n - 1)) == 2 * (Two(m) * Two(n - 1));
    }
  }

  lemma Two32()
    ensures Two(32) == W
  {
    assert Two(8) == 256;
    TwoSum(8, 8);
    TwoSum(16, 16);
  }

  lemma {:induction false} TwoOfWords(n: nat)
    ensures Two(32 * n) == Pow(n)
  {
    if n > 0 {
      TwoOfWords(n - 1);
      Two32();
      TwoSum(32, 32 * (n - 1));
    }
  }

  function Left(m: nat, n: nat): nat { Two(n) * m }

  function Right(m: nat, n: nat): int { m / Two(n) }

  function WordsLeft(m: nat, n: nat): nat { Pow(n) * m }

  function WordsRight(m: nat, n: nat): int { m / Pow(n) }

  /** `bigleftshift`: from the top word down, then zero words below. */
  method ShiftWordsLeft(a: BigInt, b: BigInt, n: nat)
    requires a.Valid() && b.Valid()
    modifies b
    ensures b.Valid() && b.Trimmed() && b.Mag() == WordsLeft(old(a.Mag()), n)
    ensures b.sign == if b.Mag() == 0 then POS else old(b.sign)
    ensures b.length <= old(a.length) + n
  {
    hide At, Val, Pow, Left, Right, WordsLeft, WordsRight, Raised;
    ghost var m := a.Mag();
    b.Guarantee(a.length + n);
    ghost var A := a.num;
    var len := a.length;
    b.length := len + n;
    MoveUp(a, b, n, len);
    ghost var t := b.num;
    ZeroLow(b, n);
    MovedUp(A, t, b.num, n, len, m);
    b.Trim();
  }

  /** The len words of s stand in t, n words higher. */
  ghost predicate Raised(s: seq<Word>, t: seq<Word>, n: nat, len: nat) {
    len <= |s| && len + n <= |t| && t[n..n + len] == s[..len]
  }

  lemma MovedUp(s: seq<Word>, t0: seq<Word>, t: seq<Word>, n: nat, len: nat, m: nat)
    requires len <= |s| && len + n <= |t| == |t0| && Low(t, n) == 0 && Low(s, len) == m
    requires Raised(s, t0, n, len) && forall j :: n <= j < |t| ==> t[j] == t0[j]
    ensures Low(t, len + n) == WordsLeft(m, n)
  {
    AtSplit(t, 0, n, len);
    assert t[n..n + len] == t0[n..n + len];
    assert s[0..0 + len] == s[..len];
  }

  method MoveUp(a: BigInt, b: BigInt, n: nat, len: nat)
    requires len <= |a.num| && len + n <= |b.num|
    modifies b`num
    ensures |b.num| == |old(b.num)| && Raised(old(a.num), b.num, n, len)
  {
    ghost var A := a.num;
    var i := len;
    while i > 0
      invariant 0 <= i <= len <= |A| == |a.num| && len + n <= |b.num| == |old(b.num)|
      invariant forall j :: 0 <= j < i ==> a.num[j] == A[j]
      invariant b.num[i + n..len + n] == A[i..len]
    {
      i := i - 1;
      b.num := b.num[i + n := a.num[i]];
    }
    assert A[0..len] == A[..len];
  }

  /** Clears the n low words, from the top one down. */
  method ZeroLow(b: BigInt, n: nat)
    requires n <= |b.num|
    modifies b`num
    ensures |b.num| == |old(b.num)| && Low(b.num, n) == 0
    ensures forall j :: n <= j < |b.num| ==> b.num[j] == old(b.num)[j]
  {
    hide At, Val, Pow;
    var i := n;
    while i > 0
      invariant 0 <= i <= n <= |b.num| == |old(b.num)|
      invariant forall j :: n <= j < |b.num| ==> b.num[j] == old(b.num)[j]
      invariant ZeroFrom(b.num, i, n)
    {
      i := i - 1;
      b.num := b.num[i := 0];
    }
    LowZeros(b.num, 0, n);
    AtZero(b.num, 0);
  }

  lemma AtMoved(s: seq<Word>, t: seq<Word>, p: nat, q: nat, n: nat)
    requires p + n <= |s| && q + n <= |t| && forall j {:trigger t[j]} :: q <= j < q + n ==> t[j] == s[j - q + p]
    ensures At(t, q, n) == At(s, p, n)
  {
    assert t[q..q + n] == s[p..p + n];
  }

  /** `bigrightshift` in place: moves the upper words down; what it leaves above the new length stays. */
  method ShiftWordsRight(a: BigInt, n: nat)
    requires a.Valid()
    modifies a
    ensures a.Valid() && a.Mag() == WordsRight(old(a.Mag()), n) && (old(a.Trimmed()) ==> a.Trimmed())
    ensures a.length == if old(a.length) > n then old(a.length) - n else 1
    ensures a.Mag() != 0 ==> a.sign == old(a.sign)
  {
    hide At, Val, Pow, WordsRight;
    ghost var A, len := a.num, a.length;
    if a.length > n {
      var i := a.length - n;
      a.length := i;
      var j := 0;
      while j < i
        invariant 0 <= j <= i && a.Valid() && a.length == i && |a.num| == |A| && a.sign == old(a.sign)
        invariant forall k :: j <= k < |A| ==> a.num[k] == A[k]
        invariant forall k {:trigger a.num[k]} :: 0 <= k < j ==> a.num[k] == A[k + n]
      {
        a.num := a.num[j := a.num[j + n]];
        j := j + 1;
      }
      MovedDown(A, a.num, n, i);
    } else {
      a.Reset(0);
      AllGone(A, len, n);
    }
  }

  lemma MovedDown(s: seq<Word>, t: seq<Word>, n: nat, i: nat)
    requires n + i <= |s| && i <= |t| && forall k {:trigger t[k]} :: 0 <= k < i ==> t[k] == s[k + n]
    ensures Low(t, i) == WordsRight(Low(s, n + i), n)
  {
    hide At, Val, Pow;
    AtMoved(s, t, n, 0, i);
    AtSplit(s, 0, n, i);
    LowBound(s, n);
    ModOf(Low(s, n), Pow(n), At(s, n, i));
  }

  lemma AllGone(s: seq<Word>, len: nat, n: nat)
    requires len <= |s| && len <= n
    ensures WordsRight(Low(s, len), n) == 0
  {
    hide At, Val, Pow;
    LowBound(s, len);
    PowMono(len, n);
    DivModUnique(Low(s, len), Pow(n), 0, Low(s, len));
  }

  /** `bigrightshift` into another number. */
  method ShiftWordsRightTo(a: BigInt, b: BigInt, n: nat)
    requires a.Valid() && b.Valid() && a != b && n <= a.length
    modifies a, b
    ensures a.Valid() && a.num == old(a.num) && a.length == old(a.length) && a.sign == old(a.sign)
    ensures b.Valid() && b.Mag() == WordsRight(old(a.Mag()), n) && b.sign == if n < old(a.length) then old(a.sign)
              else old(b.sign)
  {
    hide At, Val, Pow, WordsRight;
    var length, num := a.length, a.num;
    if length > n {
      a.length, a.num := length - n, num[n..];
      MovedDown(num, a.num, n, length - n);
      BigCopy(a, b);
    } else {
      b.length, b.num := 1, b.num[0 := 0];
      OneWord(b.num);
      AllGone(num, length, n);
    }
    a.length, a.num := length, num;
  }

  // ---- bits ----

  lemma WordParts(n: nat)
    requires 0 < n < 32
    ensures Two(n) * Two(32 - n) == W && 1 < Two(n) < W
  {
    Two32();
    TwoSum(n, 32 - n);
    assert Two(n) == 2 * Two(n - 1) && Two(32 - n) == 2 * Two(32 - n - 1);
    MulMono(Two(n), 2, Two(32 - n));
  }

  /** A word shifted left in a word, and the bits that leave it. */
  lemma LeftWord(el: Word, p: nat, q: nat, c: nat)
    requires p * q == W && c < p && p > 0 && q > 0
    ensures var s := (el * p) % W; s + c < W && s + W * (el / q) == el * p && el / q < p
  {
    var h, r := el / q, el % q;
    assert el * p == (q * h + r) * p == W * h + p * r by {
      assert (q * h + r) * p == (p * q) * h + p * r;
    }
    MulMono(p, r + 1, q);
    PlusDistribute(p, r, 1);
    DivModUnique(el * p, W, h, p * r);
    if h >= p { MulMono(q, p, h); }
  }

  /** `bl_shift`: shifts left by fewer than 32 bits. */
  method ShiftBitsLeft(a: BigInt, b: BigInt, n: nat)
    requires a.Valid() && b.Valid() && 0 < n < 32
    modifies b
    ensures b.Valid() && b.Trimmed() && b.Mag() == Left(old(a.Mag()), n)
    ensures b.sign == if b.Mag() == 0 then POS else old(b.sign)
    ensures b.length <= old(a.length) + 1
  {
    hide At, Val, Pow, Two, Left, Right, WordsLeft, WordsRight, LeftDone, Rise;
    b.Guarantee(a.length + 1);
    ghost var A := a.num;
    var len := a.length;
    var c: int := 0;
    LeftNone(A, b.num, n);
    for i := 0 to len
      invariant b.Valid() && b.length == old(b.length) && b.sign == old(b.sign) && |b.num| > len
      invariant |a.num| == |A| && forall j :: i <= j < |A| ==> a.num[j] == A[j]
      invariant LeftDone(A, b.num, i, n, c)
    {
      var el := a.num[i];
      LeftNext(A, b.num, i, n, c);
      b.num := b.num[i := Rise(el, n, c)];
      c := el / Two(32 - n);
    }
    LeftAll(A, b.num, len, n, c);
    b.num := b.num[len := c];
    b.length := len + 1;
    b.Trim();
  }

  /** The i low words of A shifted left are those of s, with the bits c for the next. */
  ghost predicate LeftDone(A: seq<Word>, s: seq<Word>, i: nat, n: nat, c: int)
    requires i <= |A| && i <= |s|
  {
    0 <= c < Two(n) && Low(s, i) + Pow(i) * c == Left(Low(A, i), n)
  }

  /** A word shifted left, with the bits c that rose from the word below it. */
  function Rise(el: Word, n: nat, c: int): int {
    (el * Two(n)) % W + c
  }

  lemma LeftNone(A: seq<Word>, s: seq<Word>, n: nat)
    ensures LeftDone(A, s, 0, n, 0)
  {
    AtZero(A, 0);
    AtZero(s, 0);
  }

  lemma LeftNext(A: seq<Word>, s: seq<Word>, i: nat, n: nat, c: int)
    requires i < |A| && i < |s| && 0 < n < 32 && LeftDone(A, s, i, n, c)
    ensures 0 <= Rise(A[i], n, c) < W && LeftDone(A, s[i := Rise(A[i], n, c)], i + 1, n, A[i] / Two(32 - n))
  {
    hide At, Val, Pow, Two;
    var p, q := Two(n), Two(32 - n);
    WordParts(n);
    LeftWord(A[i], p, q, c);
    WordStep(s, i, Rise(A[i], n, c), c, A[i] / q, p * Low(A, i), A[i] * p);
    AtNext(A, 0, i);
    ScaledNext(p, Low(A, i), Pow(i), A[i]);
  }

  lemma LeftAll(A: seq<Word>, s: seq<Word>, len: nat, n: nat, c: int)
    requires len <= |A| && len < |s| && 0 < n < 32 && LeftDone(A, s, len, n, c)
    ensures 0 <= c < W && Low(s[len := c], len + 1) == Left(Low(A, len), n)
  {
    hide At, Val, Pow, Two;
    WordParts(n);
    WordStep(s, len, c, c, 0, Two(n) * Low(A, len), 0);
  }

  lemma ScaledNext(p: int, v: int, q: int, x: int)
    ensures p * (v + q * x) == p * v + q * (x * p)
  {
    assert p * (q * x) == q * (x * p);
  }

  /** `br_shift` in place: shifts right by fewer than 32 bits, from the top word down. */
  method ShiftBitsRight(a: BigInt, n: nat)
    requires a.Valid() && 0 < n < 32
    modifies a
    ensures a.Valid() && a.Trimmed() && a.Mag() == Right(old(a.Mag()), n)
    ensures a.sign == if a.Mag() == 0 then POS else old(a.sign)
  {
    hide At, Val, Pow, Two, ZeroFrom, Left, Right, WordsLeft, WordsRight;
    ghost var A := a.num;
    var len := a.length;
    ghost var c := RightLoop(a, n);
    FallenAll(A, a.num, len, n, c);
    a.Trim();
  }

  /** The m words at i of A shifted right are those of s, and c holds the bits that fell out. */
  ghost predicate Fallen(A: seq<Word>, s: seq<Word>, i: nat, m: nat, n: nat, c: nat)
    requires i + m <= |A| && i + m <= |s| && 0 < n < 32
  {
    var r := At(A, i, m) - Two(n) * At(s, i, m);
    0 <= r < Two(n) && c == r * Two(32 - n)
  }

  /** A word shifted right, with the bits c that came down from the word above it. */
  function Sink(el: Word, n: nat, c: nat): int
    requires 0 < n < 32
  {
    el / Two(n) + c
  }

  /** The bits that fall out of a word shifted right, at the top of the word below. */
  function Fall(el: Word, n: nat): Word
    requires 0 < n < 32
  {
    (el * Two(32 - n)) % W
  }

  method RightLoop(a: BigInt, n: nat) returns (ghost c: nat)
    requires a.Valid() && 0 < n < 32
    modifies a`num
    ensures a.Valid() && |a.num| == old(|a.num|)
    ensures Fallen(old(a.num), a.num, 0, a.length, n, c)
  {
    hide At, Val, Pow, Two, Sink, Fall, Fallen;
    ghost var A := a.num;
    var len := a.length;
    var carry: nat, i := 0, len;
    FallenNone(A, len, n);
    while i > 0
      invariant 0 <= i <= len <= |a.num| == |A|
      invariant forall j :: 0 <= j < i ==> a.num[j] == A[j]
      invariant Fallen(A, a.num, i, len - i, n, carry)
    {
      i := i - 1;
      var el := a.num[i];
      FallenNext(A, a.num, i, len - i - 1, n, carry);
      a.num := a.num[i := Sink(el, n, carry)];
      carry := Fall(el, n);
    }
    c := carry;
  }

  lemma FallenNone(A: seq<Word>, len: nat, n: nat)
    requires len <= |A| && 0 < n < 32
    ensures Fallen(A, A, len, 0, n, 0)
  {
    AtZero(A, len);
  }

  lemma FallenNext(A: seq<Word>, s: seq<Word>, i: nat, m: nat, n: nat, c: nat)
    requires i + m < |A| == |s| && 0 < n < 32 && Fallen(A, s, i + 1, m, n, c)
    ensures 0 <= Sink(A[i], n, c) < W && Fallen(A, s[i := Sink(A[i], n, c)], i, m + 1, n, Fall(A[i], n))
  {
    hide At, Val, Pow, Two;
    var p, q, el := Two(n), Two(32 - n), A[i];
    var r := At(A, i + 1, m) - p * At(s, i + 1, m);
    WordParts(n);
    RightWord(el, p, q, r);
    RightStep(A, s, i, m, el, p, q, r);
  }

  lemma FallenAll(A: seq<Word>, s: seq<Word>, len: nat, n: nat, c: nat)
    requires len <= |A| && len <= |s| && 0 < n < 32 && Fallen(A, s, 0, len, n, c)
    ensures Low(s, len) == Right(Low(A, len), n)
  {
    hide At, Val, Pow, Two;
    DivModUnique(Low(A, len), Two(n), Low(s, len), Low(A, len) - Two(n) * Low(s, len));
  }

  lemma RightStep(A: seq<Word>, s: seq<Word>, i: nat, n: nat, el: Word, p: nat, q: nat, r: nat)
    requires i + n < |A| == |s| && A[i] == el && p > 0 && p * q == W && el / p + r * q < W
    requires At(A, i + 1, n) == p * At(s, i + 1, n) + r
    ensures At(A, i, n + 1) == p * At(s[i := el / p + r * q], i, n + 1) + el % p
  {
    hide At, Val, Pow;
    var t := s[i := el / p + r * q];
    AtSplit(A, i, 1, n);
    AtSplit(t, i, 1, n);
    AtOne(A, i);
    AtOne(t, i);
    AtSame(s, t, i + 1, n);
    RightSum(p, q, el / p, el % p, r, At(s, i + 1, n));
  }

  /** A word shifted right in a word, below the bits r that came down from the word above. */
  lemma RightWord(el: Word, p: nat, q: nat, r: nat)
    requires p * q == W && p > 0 && q > 0 && r < p
    ensures el / p + r * q < W && (el * q) % W == (el % p) * q && el % p < p
  {
    BelowProduct(q, r, p);
    Quotient(el, p, q);
    var h, l := el / p, el % p;
    assert el * q == (p * h + l) * q == W * h + l * q by {
      assert (p * h + l) * q == (p * q) * h + l * q;
    }
    BelowProduct(q, l, p);
    DivModUnique(el * q, W, h, l * q);
  }

  lemma BelowProduct(q: nat, r: nat, p: nat)
    requires r < p
    ensures r * q + q <= p * q
  {
    MulMono(q, r + 1, p);
    PlusDistribute(q, r, 1);
  }

  lemma Quotient(x: nat, p: nat, q: nat)
    requires p > 0 && x < p * q
    ensures x / p < q
  {
    if x / p >= q { MulMono(p, q, x / p); }
  }

  lemma RightSum(p: int, q: int, h: int, r: int, r0: int, v: int)
    requires p * q == W
    ensures (p * h + r) + W * (p * v + r0) == p * ((h + r0 * q) + W * v) + r
  {
    assert p * (h + r0 * q) == p * h + (p * q) * r0;
    assert p * (W * v) == W * (p * v);
  }

  /** `bigLeftShift`. */
  method BigLeftShift(a: BigInt, n: nat, b: BigInt)
    requires a.Valid() && b.Valid()
    modifies b
    ensures b.Valid() && b.Mag() == Left(old(a.Mag()), n) && (n > 0 || old(a.Trimmed()) ==> b.Trimmed())
    ensures b.length <= old(a.length) + n / 32 + 1
    ensures a == b && b.Mag() != 0 ==> b.sign == old(a.sign)
    ensures old(a.sign) == POS && old(b.sign) == POS ==> b.sign == POS
  {
    hide At, Val, Pow, Two, Left, Right, WordsLeft, WordsRight;
    LeftTwice(a.Mag(), n);
    if n == 0 {
      if a != b {
        BigCopy(a, b);
        TrimmedCopy(a, b);
      }
      return;
    }
    var i := n / 32;
    if i > 0 {
      ShiftWordsLeft(a, b, i);
      if n % 32 > 0 {
        ShiftBitsLeft(b, b, n % 32);
      }
    } else {
      ShiftBitsLeft(a, b, n % 32);
    }
    b.Trim();
  }

  lemma LeftTwice(m: nat, n: nat)
    ensures Left(WordsLeft(m, n / 32), n % 32) == Left(m, n) && WordsLeft(m, 0) == m && Left(m, 0) == m
    ensures Left(WordsLeft(m, n / 32), 0) == WordsLeft(m, n / 32) && (WordsLeft(m, n / 32) == 0 ==> Left(m, n) == 0)
  {
    hide Pow, Two;
    BitsAndWords(n);
    assert Two(n % 32) * (Pow(n / 32) * m) == (Pow(n / 32) * Two(n % 32)) * m;
  }

  lemma TrimmedCopy(a: BigInt, b: BigInt)
    requires a.Valid() && b.Valid() && a.length == b.length && forall i :: 0 <= i < b.length ==> b.num[i] == a.num[i]
    ensures a.Trimmed() ==> b.Trimmed()
  {}

  lemma BitsAndWords(n: nat)
    ensures Two(n) == Pow(n / 32) * Two(n % 32) && Two(0) == 1 && Pow(0) == 1
  {
    TwoOfWords(n / 32);
    TwoSum(32 * (n / 32), n % 32);
  }

  /** `bigRightShift` in place. */
  method BigRightShift(a: BigInt, n: nat)
    requires a.Valid()
    modifies a
    ensures a.Valid() && a.Trimmed() && a.Mag() == Right(old(a.Mag()), n)
    ensures a.sign == if a.Mag() == 0 then POS else old(a.sign)
  {
    hide At, Val, Pow, Two, Left, Right, WordsLeft, WordsRight;
    ghost var m := a.Mag();
    ShiftWordsRight(a, n / 32);
    ghost var m1 := a.Mag();
    if n % 32 > 0 {
      ShiftBitsRight(a, n % 32);
    }
    RightTwice(m, n, m1, a.Mag());
    a.Trim();
  }

  lemma RightTwice(m: nat, n: nat, m1: nat, m2: nat)
    requires m1 == WordsRight(m, n / 32) && m2 == if n % 32 > 0 then Right(m1, n % 32) else m1
    ensures m2 == Right(m, n) && (m1 == 0 ==> m2 == 0)
  {
    hide Pow, Two;
    BitsAndWords(n);
    DivTwice(m, Pow(n / 32), Two(n % 32), Two(n));
    DivModUnique(0, Two(n % 32), 0, 0);
  }

  lemma DivTwice(m: nat, p: nat, q: nat, t: nat)
    requires p > 0 && q > 0 && t == p * q
    ensures t > 0 && (m / p) / q == m / t && (q == 1 ==> m / p == m / t) && (m / p == 0 ==> m / t == 0)
  {
    var d := m / p;
    MulMono(p, 1, q);
    var e, f := d / q, d % q;
    TwoRemainders(m, p, q, d, m % p, e, f);
    BelowProduct(p, f, q);
    DivModUnique(m, t, e, p * f + m % p);
    DivModUnique(0, q, 0, 0);
    DivModUnique(d, 1, d, 0);
  }

  lemma TwoRemainders(m: int, p: int, q: int, d: int, r: int, e: int, f: int)
    requires m == p * d + r && d == q * e + f
    ensures m == (p * q) * e + (p * f + r)
  {
    assert p * (q * e + f) == (p * q) * e + p * f;
  }

  /** `bigRightShift` by fewer than 32 bits into another number. */
  method BitsRightTo(a: BigInt, n: nat, b: BigInt)
    requires a.Valid() && b.Valid() && a != b && 0 < n < 32
    modifies a, b
    ensures a.Valid() && a.num == old(a.num) && a.length == old(a.length) && a.sign == old(a.sign)
    ensures b.Valid() && b.Trimmed() && b.Mag() == Right(old(a.Mag()), n)
  {
    hide At, Val, Pow, Two, Left, Right, WordsLeft, WordsRight;
    ghost var m := a.Mag();
    ShiftWordsRightTo(a, b, 0);
    ghost var m1 := b.Mag();
    ShiftBitsRight(b, n);
    RightTwice(m, n, m1, b.Mag());
    b.Trim();
  }
}
