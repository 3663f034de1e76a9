/**
 Montgomery reduction, after `crypt/bigPow.c`: `modInverse`, `res_form` and `REDC`.
 */
module Montgomery {
  import opened Words
  import opened Karatsuba
  import opened BigNum
  import opened BigShift
  import opened BigMult
  import opened BigDivide
  import opened Modulo
  import opened Arith

  // ---- the inverse of a word ----

  /** `modInverse`: minus the inverse of an odd word, doubling the modulus bit by bit. */
  method ModInverse(x: Word) returns (r: Word)
    requires x % 2 == 1
    ensures Prod(x, r) % W == W - 1
  {
    hide Two, Prod;
    var y := new int[33];
    y[1] := 1;
    var od, i := 2, 2;
    TwoSteps(1);
    FirstInverse(x);
    while i < 33
      invariant 2 <= i <= 33 && od == Two(i - 1)
      invariant 0 <= y[i - 1] < od && Prod(x, y[i - 1]) % od == 1
    {
      TwoSteps(i - 1);
      var d := if i == 32 then 0 else 2 * od;
      var xx := Prod(x, y[i - 1]) % W;
      if d != 0 {
        xx := xx % d;
      }
      InverseMod(i, Prod(x, y[i - 1]), od);
      InverseStep(x, y[i - 1], od);
      if xx < od {
        y[i] := y[i - 1];
      } else {
        y[i] := y[i - 1] + od;
      }
      od := 2 * od;
      i := i + 1;
    }
    Two32();
    NegativeInverse(x, y[32]);
    r := Prod(y[32], W - 1) % W;
  }

  lemma TwoSteps(i: nat)
    ensures Two(i + 1) == 2 * Two(i) && Two(1) == 2
  {
    assert Two(0) == 1;
  }

  lemma FirstInverse(x: int)
    requires x % 2 == 1
    ensures Prod(x, 1) % 2 == 1
  {}

  /** The wrapped product modulo 2^i is the product modulo 2^i. */
  lemma InverseMod(i: nat, v: int, od: nat)
    requires 2 <= i <= 32 && od == Two(i - 1)
    ensures (if i == 32 then v % W else (v % W) % (2 * od)) == v % (2 * od)
  {
    hide Two;
    TwoSteps(i - 1);
    Two32();
    if i < 32 {
      TwoSum(i, 32 - i);
      ModMod(v, 2 * od, Two(32 - i), W);
    }
  }

  lemma ModMod(v: int, p: nat, q: nat, w: nat)
    requires p > 0 && w == p * q && w > 0
    ensures (v % w) % p == v % p
  {
    var r := v % w;
    assert v == w * (v / w) + r;
    assert (p * q) * (v / w) == p * (q * (v / w));
    MultipleIsCongruent(v, r, p, q * (v / w));
    CongruentMod(v, p);
    CongruentMod(r, p);
    CongruentTrans(v % p, v, r, p);
    CongruentTrans(v % p, r, r % p, p);
    CongruentUnique(v % p, r % p, p);
  }

  lemma InverseStep(x: int, y: int, od: nat)
    requires od >= 2 && x % 2 == 1 && Prod(x, y) % od == 1
    ensures var xx := Prod(x, y) % (2 * od);
            (xx < od ==> xx == 1) && (xx >= od ==> Prod(x, y + od) % (2 * od) == 1)
  {
    var v := Prod(x, y);
    var q, xx := v / (2 * od), v % (2 * od);
    ModMod(v, od, 2, 2 * od);
    if xx < od {
      DivModUnique(xx, od, 0, xx);
    } else {
      DivModUnique(xx, od, 1, xx - od);
      var h := (x + 1) / 2;
      assert x + 1 == 2 * h;
      assert Prod(x, y + od) == v + x * od;
      assert (2 * h) * od == x * od + od && (2 * h) * od == (2 * od) * h;
      assert (2 * od) * (q + h) == (2 * od) * q + (2 * od) * h;
      DivModUnique(Prod(x, y + od), 2 * od, q + h, 1);
    }
  }

  lemma NegativeInverse(x: Word, y: int)
    requires 0 <= y < W && Prod(x, y) % W == 1
    ensures Prod(x, Prod(y, W - 1) % W) % W == W - 1
  {
    assert Prod(y, W - 1) == W * y - y;
    if y > 0 {
      DivModUnique(Prod(y, W - 1), W, y - 1, W - y);
      var q := Prod(x, y) / W;
      assert Prod(x, W - y) == W * x - Prod(x, y);
      DivModUnique(Prod(x, W - y), W, x - q - 1, W - 1);
    }
  }

  // ---- REDC ----

  /** N can be reduced by: trimmed, positive and odd, worth v in n words. */
  ghost predicate Modulus(N: BigInt, v: nat, n: nat)
    reads N
  {
    N.Valid() && N.Trimmed() && N.sign == POS && N.length == n && N.Mag() == v && v % 2 == 1
  }

  /** T is a multiple of W^i: u is the multiplier. */
  lemma LowDigit(T: BigInt, i: nat, u: nat)
    requires T.Valid() && Clean(T, i + 1) && T.Mag() == WordsLeft(u, i)
    ensures T.num[i] == u % W
  {
    hide At, Val, Pow;
    var l := if T.length > i + 1 then T.length else i + 1;
    LowZeros(T.num, T.length, l);
    AtSplit(T.num, 0, i, l - i);
    AtSplit(T.num, i, 1, l - i - 1);
    AtOne(T.num, i);
    LowBound(T.num, i);
    var rest := At(T.num, i + 1, l - i - 1);
    var v := T.num[i] + W * rest;
    DivModUnique(T.Mag(), Pow(i), v, Low(T.num, i));
    DivModUnique(T.Mag(), Pow(i), u, 0);
    DivModUnique(v, W, rest, T.num[i]);
  }

  /** Adding m times N to a number with low digit t, where m is t times minus the inverse of N's low
      digit, clears the digit. */
  lemma ClearsDigit(u: nat, t: Word, n0p: Word, m: Word, v: nat, v0: Word)
    requires t == u % W && m == Prod(t, n0p) % W && v0 == v % W && Prod(v0, n0p) % W == W - 1
    ensures (u + Prod(m, v)) % W == 0
  {
    hide Prod;
    CongruentMod(u, W);
    CongruentMod(v, W);
    CongruentMod(Prod(t, n0p), W);
    ProdCongruent(m, Prod(t, n0p), v, v0);
    assert Prod(Prod(t, n0p), v0) == Prod(t, Prod(v0, n0p)) by { Rearranged(t, n0p, v0); }
    MinusOne(Prod(v0, n0p));
    CongruentMod(t, W);
    ProdCongruent(t, t, Prod(v0, n0p), -1);
    assert Prod(t, -1) == -(t as int) by { Negated(t); }
    CongruentTrans(Prod(m, v), Prod(Prod(t, n0p), v0), -(t as int), W);
    CongruentAdd(u, t, Prod(m, v), -(t as int), W);
  }

  lemma Rearranged(t: int, n: int, v: int)
    ensures Prod(Prod(t, n), v) == Prod(t, Prod(v, n))
  {
    assert (t * n) * v == t * (v * n);
  }

  lemma Negated(t: int)
    ensures Prod(t, -1) == -t
  {}

  lemma MinusOne(x: int)
    requires x % W == W - 1
    ensures Congruent(x, -1, W)
  {
    MultipleIsCongruent(x, -1, W, x / W + 1);
  }

  lemma ProdCongruent(a: int, b: int, c: int, d: int)
    requires Congruent(a, b, W) && Congruent(c, d, W)
    ensures Congruent(Prod(a, c), Prod(b, d), W)
  {
    CongruentMul(a, b, c, d, W);
  }

  /** The whole of T after one more row, as a multiple of W^(i+1). */
  lemma RowMultiple(T: nat, i: nat, u: nat, m: Word, v: nat, s: nat, T0: nat) returns (u': nat, s': nat)
    requires T == WordsLeft(u, i) && T == T0 + Prod(v, s) && s < Pow(i) && (u + Prod(m, v)) % W == 0
    ensures var T' := T + Shifted(i, m, v);
            T' == WordsLeft(u', i + 1) && T' == T0 + Prod(v, s') && s' < Pow(i + 1)
  {
    var w := u + Prod(m, v);
    ProdSign(m, v);
    DivBounds(w, W);
    u' := w / W;
    var p := Pow(i);
    assert w == W * u';
    PlusDistribute(p, u, m * v);
    assert p * (W * u') == (W * p) * u';
    s' := s + m * p;
    assert v * (s + m * p) == v * s + p * (m * v);
    MulMono(p, m + 1, W);
    PlusDistribute(p, m, 1);
  }

  lemma ProdSign(m: nat, v: nat)
    ensures Prod(m, v) >= 0
  {
    MulMono(m, 0, v);
  }

  lemma LowDigitOfModulus(N: BigInt)
    requires N.Valid()
    ensures N.num[0] == N.Mag() % W
  {
    hide At, Val, Pow;
    LowIsMod(N.num, 1, N.length);
    OneWord(N.num);
    PowTwo();
  }

  /** The main loop of `REDC`: adds multiples of N until the n low words are zero. */
  method ClearLow(T: BigInt, N: BigInt, n0p: Word) returns (ghost u: nat, ghost s: nat)
    requires N.Valid() && T.Valid() && T.sign == POS && T != N && Prod(N.num[0], n0p) % W == W - 1
    modifies T
    ensures T.Valid() && T.sign == POS && s < Pow(N.length)
    ensures T.Mag() == WordsLeft(u, N.length) == old(T.Mag()) + Prod(N.Mag(), s)
  {
    hide At, Val, Pow, WordsLeft, Shifted, Prod, ZeroFrom;
    ghost var T0, v := T.Mag(), N.Mag();
    u, s := T0, 0;
    OneLeft(u);
    ProdZero(v, 0);
    LowDigitOfModulus(N);
    OneClean(T);
    AtZero([], 0);
    for i := 0 to N.length
      invariant T.Valid() && T.sign == POS && (i < N.length ==> Clean(T, i + 1))
      invariant T.Mag() == WordsLeft(u, i) == T0 + Prod(v, s) && s < Pow(i)
    {
      LowDigit(T, i, u);
      var m := Prod(T.num[i], n0p) % W;
      ClearsDigit(u, T.num[i], n0p, m, v, N.num[0]);
      u, s := RowMultiple(T.Mag(), i, u, m, v, s, T0);
      NumtypeBigmult(N, m, T, i);
      RowClean(T, i, N.length);
    }
  }

  /** `REDC`: T times W^-n modulo N, in place. The comparison is strict, so N itself can be left. */
  method Redc(T: BigInt, N: BigInt, n0p: Word, ghost v: nat, ghost n: nat)
    requires Modulus(N, v, n) && T.Valid() && T.sign == POS && T != N
    requires Prod(N.num[0], n0p) % W == W - 1 && T.Mag() < WordsLeft(v, n)
    modifies T, N`length, N`sign
    ensures Modulus(N, v, n) && T.Valid() && T.Trimmed() && T.sign == POS && T.Mag() <= v
    ensures Congruent(WordsLeft(T.Mag(), n), old(T.Mag()), v)
  {
    hide At, Val, Pow, Two, WordsLeft, Right, Prod, Clean, ZeroFrom, Loses, WordsOf, Congruent;
    ghost var T0 := T.Mag();
    ghost var u, s := ClearLow(T, N, n0p);
    DivideByR(u, n);
    BigRightShift(T, 32 * N.length);
    BelowTwoN(T0, v, s, u, n);
    SmallOverflow(u, N);
    var r := BigCompare(T, N);
    RedcCongruent(T0, v, s, u, if r > 0 then 1 else 0, n);
    if r > 0 {
      BigSubtract(T, N, T);
    }
    T.Trim();
  }

  lemma OneClean(T: BigInt)
    requires T.Valid()
    ensures Clean(T, 1)
  {}

  lemma RowClean(T: BigInt, i: nat, n: nat)
    requires Clean(T, i + n)
    ensures i + 1 < n ==> Clean(T, i + 2)
  {}

  lemma DivideByR(u: nat, n: nat)
    ensures Right(WordsLeft(u, n), 32 * n) == u
  {
    hide Pow, Two;
    TwoOfWords(n);
    DivModUnique(WordsLeft(u, n), Pow(n), u, 0);
  }

  lemma BelowTwoN(T0: nat, v: nat, s: nat, u: nat, n: nat)
    requires WordsLeft(u, n) == T0 + Prod(v, s) && s < Pow(n) && T0 < WordsLeft(v, n)
    ensures u < 2 * v
  {
    hide Pow;
    var p := Pow(n);
    MulMono(v, s, p);
    assert p * (2 * v) == 2 * (p * v);
    if u >= 2 * v {
      MulMono(p, 2 * v, u);
    }
  }

  lemma SmallOverflow(u: nat, N: BigInt)
    requires N.Valid() && N.Trimmed() && u < 2 * N.Mag()
    ensures !Loses(u, N.Mag())
  {
    hide At, Val, Pow, WordsOf;
    TrimmedLength(N);
    LowBound(N.num, N.length);
    PowSum(1, N.length);
    PowTwo();
  }

  lemma RedcCongruent(T0: nat, v: nat, s: nat, u: nat, c: nat, n: nat)
    requires v > 0 && WordsLeft(u, n) == T0 + Prod(v, s) && c <= 1 && u >= c * v
    ensures Congruent(WordsLeft(u - c * v, n), T0, v)
  {
    hide Pow;
    var p := Pow(n);
    assert p * (u - c * v) == p * u - v * (c * p);
    assert v * s - v * (c * p) == v * (s - c * p);
    MultipleIsCongruent(WordsLeft(u - c * v, n), T0, v, s - c * p);
  }
}
