/**
 Modular powers for an odd modulus of at least two words, after `crypt/bigPow.c`: sixteen-entry tables
 of Montgomery residues and four squarings a nibble.
 */
module Powers {
  import opened Words
  import opened Karatsuba
  import opened BigNum
  import opened BigShift
  import opened BigMult
  import opened BigDivide
  import opened Modulo
  import opened Arith
  import opened Montgomery

  /** x stands for c in Montgomery form: it is congruent to c times W^n and at most the modulus. */
  ghost predicate Stands(x: nat, c: int, v: nat, n: nat)
    requires v > 0
  {
    x <= v && Congruent(x, Prod(Pow(n), c), v)
  }

  /** A trimmed positive number that stands for c. */
  ghost predicate Entry(b: BigInt, c: int, v: nat, n: nat)
    requires v > 0
    reads b
  {
    b.Valid() && b.Trimmed() && b.sign == POS && Stands(b.Mag(), c, v, n)
  }

  lemma {:induction false} CancelPowerOfTwo(x: int, y: int, n: nat, k: nat)
    requires n % 2 == 1 && Congruent(Prod(Two(k), x), Prod(Two(k), y), n)
    ensures Congruent(x, y, n)
  {
    if k == 0 {
      assert Prod(1, x) == x && Prod(1, y) == y;
    } else {
      assert Prod(Two(k), x) == 2 * Prod(Two(k - 1), x) by { Rearranged(2, Two(k - 1), x); }
      assert Prod(Two(k), y) == 2 * Prod(Two(k - 1), y) by { Rearranged(2, Two(k - 1), y); }
      CancelTwo(Prod(Two(k - 1), x), Prod(Two(k - 1), y), n);
      CancelPowerOfTwo(x, y, n, k - 1);
    }
  }

  /** W^n can be cancelled modulo an odd number. */
  lemma CancelR(x: int, y: int, v: nat, n: nat)
    requires v % 2 == 1 && Congruent(Prod(Pow(n), x), Prod(Pow(n), y), v)
    ensures Congruent(x, y, v)
  {
    TwoOfWords(n);
    CancelPowerOfTwo(x, y, v, 32 * n);
  }

  /** The reduced product of two residues stands for the product. */
  lemma ProductStands(x: nat, c: int, y: nat, d: int, r: nat, v: nat, n: nat)
    requires v % 2 == 1 && Stands(x, c, v, n) && Stands(y, d, v, n)
    requires r <= v && Congruent(WordsLeft(r, n), Prod(x, y), v)
    ensures Stands(r, Prod(c, d), v, n)
  {
    hide Pow, Congruent;
    var R := Pow(n);
    assert WordsLeft(r, n) == Prod(R, r);
    CongruentMul(x, Prod(R, c), y, Prod(R, d), v);
    assert Prod(R, c) * Prod(R, d) == Prod(R, Prod(R, Prod(c, d))) by {
      assert (R * c) * (R * d) == R * (R * (c * d));
    }
    CongruentTrans(Prod(R, r), Prod(x, y), Prod(R, Prod(R, Prod(c, d))), v);
    CancelR(r, Prod(R, Prod(c, d)), v, n);
  }

  lemma ProductFits(x: nat, y: nat, N: BigInt, v: nat, n: nat)
    requires Modulus(N, v, n) && x <= v && y <= v
    ensures 0 <= Prod(x, y) < WordsLeft(v, n) && x < WordsLeft(v, n) && v < Pow(n)
  {
    hide At, Val, Pow;
    LowBound(N.num, N.length);
    MulMono(x, 0, y);
    MulMono(x, y, v);
    MulMono(v, x, v);
    MulMono(v, v + 1, Pow(n));
    PlusDistribute(v, v, 1);
    MulMono(v, 2, Pow(n));
  }

  /** T := a * b, reduced. */
  method Times(a: BigInt, b: BigInt, T: BigInt, N: BigInt, n0p: Word, ghost c: int, ghost d: int, ghost v: nat,
               ghost n: nat)
    requires Modulus(N, v, n) && T.Valid() && T != N && T != a && T != b && a != N && b != N
    requires Entry(a, c, v, n) && Entry(b, d, v, n) && Prod(N.num[0], n0p) % W == W - 1
    modifies T, N`length, N`sign
    ensures Modulus(N, v, n) && Entry(T, Prod(c, d), v, n)
  {
    hide At, Val, Pow, WordsLeft, Prod, Congruent, Stands;
    ghost var x, y := a.Mag(), b.Mag();
    EntryFits(a, c, v, n);
    EntryFits(b, d, v, n);
    ProductFits(x, y, N, v, n);
    BigMultiply(a, b, T);
    Redc(T, N, n0p, v, n);
    ProductStands(x, c, y, d, T.Mag(), v, n);
  }

  lemma EntryFits(b: BigInt, c: int, v: nat, n: nat)
    requires v > 0 && Entry(b, c, v, n)
    ensures b.Mag() <= v
  {}

  /** `res_form`: a times W^n modulo N. */
  method ResForm(a: BigInt, N: BigInt, ghost v: nat, ghost n: nat) returns (r: BigInt)
    requires Modulus(N, v, n) && n >= 2 && a.Valid() && a.Trimmed() && a.sign == POS && a != N
    modifies N
    ensures fresh(r) && Modulus(N, v, n) && N.num[0] == old(N.num[0])
    ensures Entry(r, a.Mag(), v, n)
  {
    hide At, Val, Pow, Two, Left, Residue, Prod, Congruent;
    LowDigitOfModulus(N);
    var tmp := new BigInt(0);
    BigLeftShift(a, 32 * N.length, tmp);
    r := new BigInt(0);
    var code := BigMod(tmp, N, r);
    LowDigitOfModulus(N);
    ShiftStands(a.Mag(), tmp.Mag(), r.Mag(), v, n);
  }

  lemma ShiftStands(a: nat, t: nat, r: nat, v: nat, n: nat)
    requires v > 0 && t == Left(a, 32 * n) && r == Residue(t, v)
    ensures Stands(r, a, v, n)
  {
    hide Pow, Two, Residue, Congruent;
    TwoOfWords(n);
    ResidueMeaning(t, v);
    CongruentMod(r, v);
    CongruentMod(t, v);
    CongruentTrans(r, r % v, t, v);
  }

  // ---- the table of small powers ----

  /** `bigCopy` of a table entry. */
  method CopyEntry(a: BigInt, b: BigInt, ghost c: int, ghost v: nat, ghost n: nat)
    requires v > 0 && Entry(a, c, v, n) && b.Valid()
    modifies b
    ensures Entry(b, c, v, n)
  {
    hide At, Val, Pow, Stands;
    BigCopy(a, b);
    if a != b {
      TrimmedCopy(a, b);
    }
  }

  /** The entries from 1 stand for the powers of a. */
  ghost predicate PowerTable(t: seq<BigInt>, a: int, v: nat, n: nat)
    requires v > 0
    reads t
  {
    forall j :: 1 <= j < |t| ==> Entry(t[j], Power(a, j), v, n)
  }

  /** `buildAddChainTable`: the powers of a below the sixteenth. */
  method BuildAddChainTable(a: BigInt, N: BigInt, n0p: Word, ghost v: nat, ghost n: nat) returns (t: seq<BigInt>)
    requires Modulus(N, v, n) && n >= 2 && a.Valid() && a.Trimmed() && a.sign == POS && a != N
    requires Prod(N.num[0], n0p) % W == W - 1
    modifies N
    ensures Modulus(N, v, n) && N.num[0] == old(N.num[0]) && |t| == 16 && PowerTable(t, a.Mag(), v, n)
    ensures forall j :: 0 <= j < |t| ==> fresh(t[j])
  {
    hide At, Val, Pow, Stands, Prod, Entry, PowerTable, Power;
    ghost var A := a.Mag();
    PowerOne(A);
    var x := ResForm(a, N, v, n);
    ghost var first := N.num[0];
    var one := new BigInt(1);
    var t1 := new BigInt(0);
    CopyEntry(x, t1, A, v, n);
    t := [one, t1];
    TableStart(t, A, v, n);
    var i := 2;
    while i < 16
      invariant 2 <= i <= 16 && |t| == i && Modulus(N, v, n) && N.num[0] == first
      invariant Entry(x, A, v, n) && fresh(x)
      invariant forall j :: 0 <= j < |t| ==> fresh(t[j])
      invariant PowerTable(t, A, v, n)
      modifies N`length, N`sign
    {
      TableEntry(t, A, i - 1, v, n);
      var ti := NextEntry(x, t[i - 1], N, n0p, A, i, v, n);
      TableMore(t, ti, A, v, n);
      t := t + [ti];
      i := i + 1;
    }
  }

  /** The next entry of the table: x times the last one. */
  method NextEntry(x: BigInt, last: BigInt, N: BigInt, n0p: Word, ghost a: int, ghost i: nat, ghost v: nat,
                   ghost n: nat)
    returns (ti: BigInt)
    requires Modulus(N, v, n) && i > 0 && x != N && last != N && Entry(x, a, v, n) && Entry(last, Power(a, i - 1), v, n)
    requires Prod(N.num[0], n0p) % W == W - 1
    modifies N`length, N`sign
    ensures Modulus(N, v, n) && fresh(ti) && Entry(ti, Power(a, i), v, n)
  {
    hide At, Val, Pow, Stands, Prod;
    ti := new BigInt(0);
    Times(x, last, ti, N, n0p, a, Power(a, i - 1), v, n);
    PowerNext(a, i);
  }

  lemma TableStart(t: seq<BigInt>, a: int, v: nat, n: nat)
    requires v > 0 && |t| == 2 && Entry(t[1], Power(a, 1), v, n)
    ensures PowerTable(t, a, v, n)
  {}

  lemma TableEntry(t: seq<BigInt>, a: int, j: nat, v: nat, n: nat)
    requires v > 0 && 1 <= j < |t| && PowerTable(t, a, v, n)
    ensures Entry(t[j], Power(a, j), v, n)
  {}

  lemma TableMore(t: seq<BigInt>, b: BigInt, a: int, v: nat, n: nat)
    requires v > 0 && PowerTable(t, a, v, n) && Entry(b, Power(a, |t|), v, n)
    ensures PowerTable(t + [b], a, v, n)
  {}

  lemma PowerNext(a: int, i: nat)
    requires i > 0
    ensures Prod(a, Power(a, i - 1)) == Power(a, i)
  {}

  // ---- nibbles of the exponent ----

  /** NIBBLE: the i-th group of four bits. */
  function Nibble(s: seq<Word>, i: nat): nat
    requires i / 8 < |s|
  {
    (s[i / 8] / Two(4 * (i % 8))) % 16
  }

  /** What of e lies above its i low nibbles. */
  function Above(e: nat, i: nat): int { e / Two(4 * i) }

  /** The nibbles of the words are the hexadecimal digits of the number. */
  lemma NibbleIs(s: seq<Word>, len: nat, i: nat)
    requires i / 8 < len <= |s|
    ensures Above(Low(s, len), i) == 16 * Above(Low(s, len), i + 1) + Nibble(s, i) && Above(Low(s, len), i + 1) >= 0
  {
    hide At, Val, Pow, Two, Low;
    var q, r, e := i / 8, i % 8, Low(s, len);
    var big, rest := WordAbove(s, len, q);
    TwoOfWords(q);
    TwoSum(32 * q, 4 * r);
    TwoSum(32 * q, 4 * r + 4);
    DivTwice(e, Pow(q), Two(4 * r), Two(4 * i));
    DivTwice(e, Pow(q), Two(4 * r + 4), Two(4 * i + 4));
    NibbleSizes(r);
    WordNibble(s[q], rest, Two(4 * r), Two(4 * r + 4), Two(28 - 4 * r));
  }

  lemma NibbleSizes(r: nat)
    requires r < 8
    ensures Two(4 * r + 4) == Two(4 * r) * 16 && W == Two(4 * r + 4) * Two(28 - 4 * r)
  {
    hide Two;
    Two32();
    TwoSum(4 * r, 4);
    TwoSum(4 * r + 4, 28 - 4 * r);
    TwoFour();
  }

  /** What lies above the q low words begins with word q. */
  lemma WordAbove(s: seq<Word>, len: nat, q: nat) returns (big: nat, rest: nat)
    requires q < len <= |s|
    ensures big == s[q] + W * rest && Low(s, len) / Pow(q) == big
  {
    hide At, Val, Pow;
    AtSplit(s, 0, q, len - q);
    AtSplit(s, q, 1, len - q - 1);
    AtOne(s, q);
    LowBound(s, q);
    rest := At(s, q + 1, len - q - 1);
    big := s[q] + W * rest;
    ModOf(Low(s, q), Pow(q), big);
  }

  lemma WordNibble(w: Word, rest: nat, p: nat, q: nat, c: nat)
    requires p > 0 && q == p * 16 && W == q * c
    ensures Over(w + W * rest, p) == 16 * Over(w + W * rest, q) + Over(w, p) % 16 && Over(w + W * rest, q) >= 0
  {
    Lowered(w, rest, p, c);
    DivTwice(w + W * rest, p, 16, q);
    LowNibble(w / p, c * rest);
  }

  lemma Lowered(w: Word, rest: nat, p: nat, c: nat)
    requires p > 0 && W == (p * 16) * c
    ensures (w + W * rest) / p == w / p + 16 * (c * rest) && w / p >= 0 && c * rest >= 0
  {
    DivBounds(w, p);
    ScaledSign(c, rest);
    assert ((p * 16) * c) * rest == p * (16 * (c * rest));
    var d, y := w / p, 16 * (c * rest);
    assert w == p * d + w % p;
    PlusDistribute(p, d, y);
    DivModUnique(w + W * rest, p, d + y, w % p);
  }

  lemma ScaledSign(c: nat, x: nat)
    ensures c * x >= 0
  {
    MulMono(c, 0, x);
  }

  lemma LowNibble(d: int, y: int)
    requires d >= 0 && y >= 0
    ensures d + 16 * y == 16 * ((d + 16 * y) / 16) + d % 16 && (d + 16 * y) / 16 >= 0
  {}

  lemma TwoFour()
    ensures Two(4) == 16
  {
    assert Two(2) == 4;
    TwoSum(2, 2);
  }

  lemma AboveTop(s: seq<Word>, len: nat)
    requires len <= |s|
    ensures Above(Low(s, len), 8 * len) == 0 && Above(Low(s, len), 0) == Low(s, len)
  {
    hide At, Val, Pow;
    LowBound(s, len);
    TwoOfWords(len);
    DivModUnique(Low(s, len), Pow(len), 0, Low(s, len));
    DivModUnique(Low(s, len), 1, Low(s, len), 0);
  }

  // ---- the power ----

  /** Where the exponent begins: its highest nibble that is not zero. */
  method TopNibble(exp: BigInt) returns (i: nat)
    requires exp.Valid() && exp.Mag() > 0
    ensures i < 8 * exp.length && Above(exp.Mag(), i + 1) == 0
  {
    hide At, Val, Pow, Low, Nibble, Above;
    AboveTop(exp.num, exp.length);
    var k := 8 * exp.length - 1;
    while k >= 0 && Nibble(exp.num, k) == 0
      invariant -1 <= k < 8 * exp.length && Above(exp.Mag(), k + 1) == 0
    {
      NibbleIs(exp.num, exp.length, k);
      k := k - 1;
    }
    i := k;
  }

  /** Four squarings, by way of d. */
  method FourSquares(x: BigInt, d: BigInt, N: BigInt, n0p: Word, ghost c: int, ghost v: nat, ghost n: nat)
    requires Modulus(N, v, n) && x != N && d != N && d != x && d.Valid() && Entry(x, c, v, n)
    requires Prod(N.num[0], n0p) % W == W - 1
    modifies x, d, N`length, N`sign
    ensures Modulus(N, v, n) && Entry(x, Power(c, 16), v, n) && d.Valid()
  {
    hide At, Val, Pow, Stands, Prod;
    ghost var c2 := Prod(c, c);
    ghost var c4 := Prod(c2, c2);
    ghost var c8 := Prod(c4, c4);
    Times(x, x, d, N, n0p, c, c, v, n);
    Times(d, d, x, N, n0p, c2, c2, v, n);
    Times(x, x, d, N, n0p, c4, c4, v, n);
    Times(d, d, x, N, n0p, c8, c8, v, n);
    SixteenthPower(c);
  }

  lemma SixteenthPower(c: int)
    ensures var c2 := Prod(c, c); var c4 := Prod(c2, c2); var c8 := Prod(c4, c4); Prod(c8, c8) == Power(c, 16)
  {
    PowerOne(c);
    PowerSum(c, 1, 1);
    PowerSum(c, 2, 2);
    PowerSum(c, 4, 4);
    PowerSum(c, 8, 8);
  }

  /** The loop of `bigpow`: result comes to stand for the power. */
  method PowerLoop(at: seq<BigInt>, exp: BigInt, d: BigInt, N: BigInt, result: BigInt, n0p: Word, ghost a: int,
                   ghost v: nat, ghost n: nat)
    requires Modulus(N, v, n) && |at| == 16 && PowerTable(at, a, v, n) && exp.Valid() && exp.Mag() > 0
    requires result != N && d != N && d != result && exp != result && exp != d && result.Valid()
    requires forall j :: 0 <= j < 16 ==> at[j] != d && at[j] != result && at[j] != N
    requires Entry(d, 1, v, n) && Prod(N.num[0], n0p) % W == W - 1 && exp != N
    modifies d, result, N`length, N`sign
    ensures Modulus(N, v, n) && Entry(result, Power(a, exp.Mag()), v, n)
  {
    hide At, Val, Pow, Low, Stands, Prod, Nibble, Above, Power;
    ghost var e := exp.Mag();
    var i := TopNibble(exp);
    ghost var hi: nat := 0;
    PowerOne(a);
    while true
      invariant 0 <= i < 8 * exp.length && hi == Above(e, i + 1)
      invariant Modulus(N, v, n) && result.Valid() && Entry(d, Power(a, 16 * hi), v, n)
      decreases i
    {
      NibbleIs(exp.num, exp.length, i);
      var nib := Nibble(exp.num, i);
      NibbleSmall(exp.num, i);
      NibblePower(a, hi, nib);
      if nib != 0 {
        assert Entry(at[nib], Power(a, nib), v, n);
        Times(at[nib], d, result, N, n0p, Power(a, nib), Power(a, 16 * hi), v, n);
      } else {
        CopyEntry(d, result, Power(a, 16 * hi), v, n);
      }
      hi := 16 * hi + nib;
      if i == 0 {
        AboveTop(exp.num, exp.length);
        return;
      }
      FourSquares(result, d, N, n0p, Power(a, hi), v, n);
      PowerMul(a, hi, 16);
      CopyEntry(result, d, Power(a, 16 * hi), v, n);
      i := i - 1;
    }
  }

  lemma NibbleSmall(s: seq<Word>, i: nat)
    requires i / 8 < |s|
    ensures 0 <= Nibble(s, i) < 16
  {}

  lemma NibblePower(a: int, hi: nat, nib: nat)
    ensures Prod(Power(a, nib), Power(a, 16 * hi)) == Power(a, 16 * hi + nib)
  {
    hide Power;
    PowerSum(a, nib, 16 * hi);
  }

  /** `mont_set`: minus the inverse of the low word of an odd modulus. */
  method MontSet(N: BigInt, ghost v: nat, ghost n: nat) returns (n0p: Word)
    requires Modulus(N, v, n)
    ensures Prod(N.num[0], n0p) % W == W - 1
  {
    hide Prod;
    LowDigitOfModulus(N);
    OddLowDigit(v);
    n0p := ModInverse(N.num[0]);
  }

  lemma OddLowDigit(v: nat)
    requires v % 2 == 1
    ensures (v % W) % 2 == 1
  {}

  /** `bigpow`: the power of a number up to an odd modulus N, as a residue up to N itself. */
  method Bigpow(a: BigInt, exp: BigInt, N: BigInt, result: BigInt, ghost v: nat, ghost n: nat)
    requires Modulus(N, v, n) && n >= 2 && a.Valid() && a.Trimmed() && a.sign == POS && exp.Valid() && exp.Trimmed()
    requires result.Valid()
    requires a != N && exp != N && result != N && result != a && result != exp
    modifies N, result
    ensures Modulus(N, v, n) && result.Valid() && result.Trimmed() && result.sign == POS
    ensures a.Mag() == 0 ==> result.Mag() == 0
    ensures a.Mag() > 0 && exp.Mag() == 0 ==> result.Mag() == 1
    ensures a.Mag() > 0 && exp.Mag() > 0 ==> result.Mag() <= v && Congruent(result.Mag(), Power(a.Mag(), exp.Mag()), v)
  {
    hide At, Val, Pow, Stands, Prod, Power, PowerTable, Congruent;
    ZeroIsWord(a);
    ZeroIsWord(exp);
    if a.length == 1 && a.num[0] == 0 {
      result.Reset(0);
      return;
    }
    if exp.length == 1 && exp.num[0] == 0 {
      result.Reset(1);
      return;
    }
    var n0p := MontSet(N, v, n);
    var at := BuildAddChainTable(a, N, n0p, v, n);
    var one := new BigInt(1);
    var d := ResForm(one, N, v, n);
    PowerLoop(at, exp, d, N, result, n0p, a.Mag(), v, n);
    LeaveMontgomery(result, N, n0p, Power(a.Mag(), exp.Mag()), v, n);
  }

  /** The last REDC takes a residue out of Montgomery form. */
  method LeaveMontgomery(result: BigInt, N: BigInt, n0p: Word, ghost c: int, ghost v: nat, ghost n: nat)
    requires Modulus(N, v, n) && result != N && Entry(result, c, v, n) && Prod(N.num[0], n0p) % W == W - 1
    modifies result, N`length, N`sign
    ensures Modulus(N, v, n) && result.Valid() && result.Trimmed() && result.sign == POS && result.Mag() <= v
    ensures Congruent(result.Mag(), c, v)
  {
    hide At, Val, Pow, Prod, Congruent, WordsLeft;
    ghost var x := result.Mag();
    ProductFits(x, 0, N, v, n);
    Redc(result, N, n0p, v, n);
    OutOfForm(x, c, result.Mag(), v, n);
  }

  lemma OutOfForm(x: nat, c: int, r: nat, v: nat, n: nat)
    requires v % 2 == 1 && Stands(x, c, v, n) && Congruent(WordsLeft(r, n), x, v)
    ensures Congruent(r, c, v)
  {
    hide Pow, Congruent;
    assert WordsLeft(r, n) == Prod(Pow(n), r);
    CongruentTrans(WordsLeft(r, n), x, Prod(Pow(n), c), v);
    CancelR(r, c, v, n);
  }

  /** The base that `bigPow` raises: reduced by `bigMod` only if it exceeds the modulus. */
  ghost function Base(a: nat, v: nat): nat
    requires v > 0
  {
    if a > v then Residue(a, v) else a
  }

  /** The base raised is zero just for the multiples of the modulus that are not the modulus
      itself followed by zero words. */
  lemma BaseIsZero(a: nat, v: nat)
    requires v > 0
    ensures Base(a, v) == 0 <==> a % v == 0 && !exists j: nat :: a == WordsLeft(v, j)
  {
    hide Residue, WordsLeft;
    ResidueMeaning(a, v);
    assert WordsLeft(v, 0) == v by { PowZero(v); }
    if a <= v {
      SmallMultiple(a, v);
      NoSmaller(a, v);
    }
  }

  lemma PowZero(v: nat)
    ensures WordsLeft(v, 0) == v
  {}

  lemma SmallMultiple(a: nat, v: nat)
    requires 0 < v && a <= v
    ensures a % v == 0 <==> a == 0 || a == v
  {}

  lemma NoSmaller(a: nat, v: nat)
    requires v > 0
    ensures a < v ==> forall j: nat :: a != WordsLeft(v, j)
  {
    forall j: nat
      ensures v <= WordsLeft(v, j)
    {
      MulMono(v, 1, Pow(j));
    }
  }

  /** `bigPow` for an odd modulus of at least two words: the power modulo N if and only if the
      exponent or the base raised is not zero.  (`BaseIsZero` tells when it is: for 2N, say, but not for N.) */
  method BigPow(m: BigInt, exp: BigInt, N: BigInt, result: BigInt)
    requires N.Valid() && N.Trimmed() && N.sign == POS && N.length >= 2 && N.Mag() % 2 == 1
    requires m.Valid() && m.Trimmed() && m.sign == POS && exp.Valid() && exp.Trimmed() && result.Valid()
    requires m != N && exp != N && result != N && result != exp
    modifies N, result, m`length, m`sign
    ensures Modulus(N, old(N.Mag()), old(N.length))
    ensures m != result ==> m.Valid() && m.Trimmed() && m.sign == POS && m.Mag() == old(m.Mag())
    ensures result.Valid() && result.Trimmed() && result.sign == POS
    ensures result.Mag() < N.Mag()
    ensures result.Mag() == Power(old(m.Mag()), exp.Mag()) % N.Mag() <==>
            exp.Mag() > 0 || Base(old(m.Mag()), N.Mag()) != 0
  {
    hide At, Val, Pow, Prod, Congruent, Power, Residue;
    ghost var v, n, A, e := N.Mag(), N.length, m.Mag(), exp.Mag();
    var newm := new BigInt(0);
    LargeModulus(N);
    ReducedBase(A, v);
    var r := BigCompare(m, N);
    if r > 0 {
      var code := BigMod(m, N, newm);
    } else {
      BigCopy(m, newm);
      TrimmedCopy(m, newm);
    }
    ghost var B := newm.Mag();
    Bigpow(newm, exp, N, result, v, n);
    var same := BigCompare(result, N);
    ExactPower(A, B, e, v, result.Mag());
    if same == 0 {
      result.Reset(0);
    }
  }

  lemma LargeModulus(N: BigInt)
    requires N.Valid() && N.Trimmed() && N.length >= 2
    ensures N.Mag() >= W
  {
    hide At, Val, Pow;
    TopIsPositive(N.num, N.length);
    PowMono(1, N.length - 1);
    PowTwo();
  }

  /** The base that is raised is congruent to the one given. */
  lemma ReducedBase(a: nat, v: nat)
    requires v > 0
    ensures Congruent(a, a, v) && Congruent(Residue(a, v), a, v) && Residue(a, v) <= v
  {
    hide Residue;
    ResidueMeaning(a, v);
    CongruentMod(Residue(a, v), v);
    CongruentMod(a, v);
    CongruentTrans(Residue(a, v), Residue(a, v) % v, a, v);
  }

  lemma ExactPower(a: nat, b: nat, e: nat, v: nat, r: nat)
    requires v > 1 && Congruent(b, a, v) && r <= v
    requires b == 0 ==> r == 0
    requires b > 0 && e == 0 ==> r == 1
    requires b > 0 && e > 0 ==> Congruent(r, Power(b, e), v)
    ensures (if r == v then 0 else r) == Power(a, e) % v <==> e > 0 || b > 0
  {
    hide Congruent;
    PowerCongruent(b, a, e, v);
    var x := Power(a, e);
    if e > 0 || b > 0 {
      if b == 0 {
        ZeroPower(e);
      } else if e == 0 {
        CongruentMod(1, v);
      }
      CongruentTrans(r, Power(b, e), x, v);
      CongruentMod(x, v);
      CongruentTrans(r, x, x % v, v);
      Wrapped(r, x % v, v);
    } else {
      assert x == 1 && x % v == 1;
    }
  }

  lemma ZeroPower(e: nat)
    requires e > 0
    ensures Power(0, e) == 0 && Congruent(0, 0, 1)
  {}

  /** A residue up to v, with v taken for zero, is the residue below v. */
  lemma Wrapped(r: nat, x: int, v: nat)
    requires v > 0 && r <= v && 0 <= x < v && Congruent(r, x, v)
    ensures (if r == v then 0 else r) == x
  {
    if r == v {
      MultipleIsCongruent(0, v, v, -1);
      CongruentTrans(0, v, x, v);
      CongruentUnique(0, x, v);
    } else {
      CongruentUnique(r, x, v);
    }
  }
}
