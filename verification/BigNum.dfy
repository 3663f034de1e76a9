/**
 The multi-precision numbers of `include/libcrypt.h` and the linear operations of `crypt/bigmath.c`,
 `bigCompare.c`, `bigAdd.c`, `bigSubtract.c` and the shifts, updating their target in place;
 the target may be one of the operands.
 */
module BigNum {
  import opened Words
  import opened Karatsuba

  const POS := 1
  const NEG := -1

  /** 2^n. */
  function Two(n: nat): (p: nat)
    ensures p > 0
  {
    if n == 0 then 1 else 2 * Two(n - 1)
  }

  function Zeros(n: nat): (z: seq<Word>)
    ensures |z| == n
  {
    seq(n, _ => 0)
  }

  /** The words of s from n up to l are zero. */
  ghost predicate ZeroFrom(s: seq<Word>, n: nat, l: nat) {
    forall j :: n <= j < l && j < |s| ==> s[j] == 0
  }

  /** The number in the low n words of s. */
  ghost function Low(s: seq<Word>, n: nat): nat
    requires n <= |s|
  {
    At(s, 0, n)
  }

  class BigInt {
    var sign: int
    var length: nat
    var num: seq<Word>

    ghost predicate Valid()
      reads this
    {
      1 <= length <= |num| && (sign == POS || sign == NEG)
    }

    ghost function Mag(): nat
      reads this
      requires Valid()
    {
      Low(num, length)
    }

    ghost function Value(): int
      reads this
      requires Valid()
    {
      if sign == POS then Mag() else -(Mag() as int)
    }

    ghost predicate Trimmed()
      reads this
    {
      1 <= length <= |num| && (length == 1 || num[length - 1] != 0)
    }

    /** `itobig`. */
    constructor (i: Word)
      ensures Valid() && Trimmed() && Mag() == i && sign == POS && length == 1 && |num| == 1
    {
      sign, length, num := POS, 1, [i];
      new;
      OneWord(num);
    }

    /** `trim`: drops leading zero words, and the sign of zero. */
    method Trim()
      requires Valid()
      modifies this`length, this`sign
      ensures Valid() && Trimmed() && Mag() == old(Mag()) && length <= old(length)
      ensures ZeroFrom(num, length, old(length))
      ensures sign == (if Mag() == 0 then POS else old(sign)) && (old(Trimmed()) ==> length == old(length))
    {
      hide At, Val, Pow;
      while length > 1 && num[length - 1] == 0
        invariant 1 <= length <= |num| && length <= old(length) && sign == old(sign)
        invariant (old(Trimmed()) ==> length == old(length))
        invariant Low(num, length) == old(Mag()) && ZeroFrom(num, length, old(length))
      {
        AtNext(num, 0, length - 1);
        length := length - 1;
      }
      if length == 1 && num[0] == 0 {
        sign := POS;
        OneWord(num);
      }
      TopIsPositive(num, length);
    }

    /** `reset_big`. */
    method Reset(u: Word)
      requires Valid()
      modifies this
      ensures Valid() && Trimmed() && Mag() == u == num[0] && sign == POS && length == 1 && |num| == old(|num|)
    {
      sign, length, num := POS, 1, num[0 := u];
      OneWord(num);
    }

    /** `GUARANTEE`: at least s words of storage. */
    method Guarantee(s: nat)
      requires Valid()
      modifies this`num
      ensures Valid() && Mag() == old(Mag()) && |num| == if old(|num|) < s then s else old(|num|)
      ensures forall i :: 0 <= i < length ==> num[i] == old(num)[i]
      ensures forall i :: length <= i < |old(num)| ==> num[i] == old(num)[i] || num[i] == 0
      ensures old(|num|) >= s ==> num == old(num)
      ensures Trimmed() <==> old(Trimmed())
    {
      if |num| < s {
        num := num[..length] + Zeros(s - length);
        AtSame(old(num), num, 0, length);
      }
    }
  }

  lemma OneWord(s: seq<Word>)
    requires |s| > 0
    ensures Low(s, 1) == s[0]
  {
    AtZero(s, 0);
    AtNext(s, 0, 0);
  }

  /** A trimmed number of n words lies between W^(n-1) and W^n. */
  lemma TopIsPositive(s: seq<Word>, n: nat)
    requires 1 <= n <= |s|
    ensures Low(s, n) < Pow(n) && (s[n - 1] != 0 ==> Low(s, n) >= Pow(n - 1) > 0)
    ensures n == 1 ==> Low(s, n) == s[0]
  {
    hide At, Val, Pow;
    AtNext(s, 0, n - 1);
    LowBound(s, n);
    if s[n - 1] != 0 {
      MulMono(Pow(n - 1), 1, s[n - 1]);
    }
    OneWord(s);
  }

  lemma LowBound(s: seq<Word>, n: nat)
    requires n <= |s|
    ensures Low(s, n) < Pow(n)
  {
    ValBound(s[0..n]);
  }

  lemma {:induction false} PowMono(m: nat, n: nat)
    requires m <= n
    ensures Pow(m) <= Pow(n)
  {
    if m < n {
      PowMono(m, n - 1);
    }
  }

  lemma {:induction false} LowZeros(s: seq<Word>, m: nat, n: nat)
    requires m <= n <= |s| && ZeroFrom(s, m, n)
    ensures Low(s, n) == Low(s, m)
  {
    hide At, Val, Pow;
    if m < n {
      LowZeros(s, m, n - 1);
      AtNext(s, 0, n - 1);
    }
  }

  /** `bigCompare`: compares magnitudes. */
  method BigCompare(a: BigInt, b: BigInt) returns (r: int)
    requires a.Valid() && b.Valid()
    modifies a`length, a`sign, b`length, b`sign
    ensures a.Valid() && b.Valid() && a.Trimmed() && b.Trimmed()
    ensures a.Mag() == old(a.Mag()) && b.Mag() == old(b.Mag()) && a.length <= old(a.length) && b.length <= old(b.length)
    ensures (old(a.Trimmed()) ==> a.length == old(a.length)) && (old(b.Trimmed()) ==> b.length == old(b.length))
    ensures ZeroFrom(a.num, a.length, old(a.length)) && ZeroFrom(b.num, b.length, old(b.length))
    ensures a.sign == (if a.Mag() == 0 then POS else old(a.sign))
    ensures b.sign == (if b.Mag() == 0 then POS else old(b.sign))
    ensures (r < 0 <==> a.Mag() < b.Mag()) && (r == 0 <==> a.Mag() == b.Mag()) && (a.length < b.length ==> r < 0)
  {
    hide At, Val, Pow;
    a.Trim();
    b.Trim();
    LongerIsLarger(a, b);
    LongerIsLarger(b, a);
    if a.length != b.length {
      return (a.length as int) - (b.length as int);
    }
    var i := a.length;
    while i > 0 && a.num[i - 1] == b.num[i - 1]
      invariant 0 <= i <= a.length
      invariant a.Mag() - b.Mag() == Low(a.num, i) - Low(b.num, i)
      modifies {}
    {
      AtNext(a.num, 0, i - 1);
      AtNext(b.num, 0, i - 1);
      i := i - 1;
    }
    if i == 0 {
      AtZero(a.num, 0);
      AtZero(b.num, 0);
      return 0;
    }
    TopWordDecides(a.num, b.num, i - 1);
    r := if a.num[i - 1] < b.num[i - 1] then -1 else 1;
  }

  lemma LongerIsLarger(a: BigInt, b: BigInt)
    requires a.Valid() && b.Valid() && b.Trimmed()
    ensures a.length < b.length ==> a.Mag() < b.Mag()
  {
    hide At, Val, Pow;
    if a.length < b.length {
      TopIsPositive(b.num, b.length);
      LowBound(a.num, a.length);
      PowMono(a.length, b.length - 1);
    }
  }

  lemma TopWordDecides(s: seq<Word>, t: seq<Word>, i: nat)
    requires i < |s| && i < |t|
    ensures s[i] < t[i] ==> Low(s, i + 1) < Low(t, i + 1)
    ensures s[i] > t[i] ==> Low(s, i + 1) > Low(t, i + 1)
  {
    AtNext(s, 0, i);
    AtNext(t, 0, i);
    LowBound(s, i);
    LowBound(t, i);
    TopDecides(Pow(i), Low(s, i), s[i], Low(t, i), t[i]);
  }

  /** Writing word i of c after low words worth `was` with carry c0. */
  lemma WordStep(s: seq<Word>, i: nat, z: Word, c0: int, c1: int, was: int, add: int)
    requires i < |s| && z + W * c1 == add + c0 && Low(s, i) + Pow(i) * c0 == was
    ensures Low(s[i := z], i + 1) + Pow(i + 1) * c1 == was + Pow(i) * add
  {
    hide At, Val, Pow;
    LinearStep(s, s[i := z], 0, i, c0, c1, was, add);
  }

  /** `bigaddition`: the sum of the magnitudes, with the sign of the longer operand. */
  method BigAddition(a: BigInt, b: BigInt, c: BigInt)
    requires a.Valid() && b.Valid() && c.Valid()
    modifies c
    ensures c.Valid() && c.Trimmed() && c.Mag() == old(a.Mag()) + old(b.Mag())
    ensures c.sign == if c.Mag() == 0 then POS else old((if a.length < b.length then b else a).sign)
  {
    hide At, Val, Pow;
    if a.length < b.length {
      AddShorter(b, a, c);
    } else {
      AddShorter(a, b, c);
    }
  }

  method AddShorter(a: BigInt, b: BigInt, c: BigInt)
    requires a.Valid() && b.Valid() && c.Valid() && b.length <= a.length
    modifies c
    ensures c.Valid() && c.Trimmed() && c.Mag() == old(a.Mag()) + old(b.Mag())
    ensures c.sign == if c.Mag() == 0 then POS else old(a.sign)
  {
    hide At, Val, Pow;
    c.Guarantee(a.length + 1);
    ghost var A, B := a.num, b.num;
    var la, lb, sign := a.length, b.length, a.sign;
    var carry := AddLow(a, b, c);
    carry := AddHigh(a, c, lb, carry, Low(A, lb) + Low(B, lb), A);
    TopCarry(c, la, carry, sign, Low(A, la) + Low(B, lb));
  }

  /** The carry out of n words becomes one more word. */
  method TopCarry(c: BigInt, n: nat, carry: int, sign: int, ghost sum: int)
    requires c.Valid() && 1 <= n < |c.num| && 0 <= carry <= 1 && (sign == POS || sign == NEG)
    requires Low(c.num, n) + Pow(n) * carry == sum
    modifies c
    ensures c.Valid() && c.Trimmed() && c.Mag() == sum && c.sign == if c.Mag() == 0 then POS else sign
  {
    hide At, Val, Pow;
    if carry != 0 {
      WordStep(c.num, n, carry, carry, 0, sum, 0);
      c.num := c.num[n := carry];
      c.length := n + 1;
    } else {
      c.length := n;
    }
    c.sign := sign;
    c.Trim();
  }

  /** The carry running on through the words only the longer operand has. */
  method AddHigh(a: BigInt, c: BigInt, lb: nat, carry0: int, ghost low: nat, ghost A: seq<Word>) returns (carry: int)
    requires a.Valid() && c.Valid() && lb <= a.length < |c.num| && a.length <= |A| && 0 <= carry0 <= 1
    requires Low(c.num, lb) + Pow(lb) * carry0 == low && low >= Low(A, lb)
    requires forall j :: lb <= j < a.length ==> a.num[j] == A[j]
    modifies c`num
    ensures c.Valid() && |c.num| == old(|c.num|) && 0 <= carry <= 1
    ensures Low(c.num, a.length) + Pow(a.length) * carry == Low(A, a.length) + (low - Low(A, lb))
  {
    hide At, Val, Pow;
    carry := carry0;
    ghost var more := low - Low(A, lb);
    for i := lb to a.length
      invariant |c.num| == old(|c.num|) && 0 <= carry <= 1
      invariant forall j :: i <= j < a.length ==> j < |a.num| && a.num[j] == A[j]
      invariant Low(c.num, i) + Pow(i) * carry == Low(A, i) + more
    {
      ghost var s, c0 := c.num, carry;
      var z: Word := Wrap((a.num[i] as int) + carry);
      carry := if z < carry then 1 else 0;
      c.num := c.num[i := z];
      WordStep(s, i, z, c0, carry, Low(A, i) + more, A[i]);
      AtNext(A, 0, i);
    }
  }

  /** The words both operands have. */
  method AddLow(a: BigInt, b: BigInt, c: BigInt) returns (carry: int)
    requires a.Valid() && b.Valid() && c.Valid() && b.length <= a.length < |c.num|
    modifies c`num
    ensures c.Valid() && |c.num| == old(|c.num|) && a.Valid() && |a.num| == old(|a.num|) && 0 <= carry <= 1
    ensures forall j :: b.length <= j < a.length ==> a.num[j] == old(a.num)[j]
    ensures Low(c.num, b.length) + Pow(b.length) * carry == Low(old(a.num), b.length) + Low(old(b.num), b.length)
  {
    hide At, Val, Pow;
    ghost var A, B := a.num, b.num;
    var lb := b.length;
    carry := 0;
    AtZero(A, 0);
    AtZero(B, 0);
    AtZero(c.num, 0);
    for i := 0 to lb
      invariant |c.num| == old(|c.num|) && |a.num| == |A| && |b.num| == |B| && 0 <= carry <= 1
      invariant forall j :: i <= j < |A| ==> a.num[j] == A[j]
      invariant forall j :: i <= j < |B| ==> b.num[j] == B[j]
      invariant Low(c.num, i) + Pow(i) * carry == Low(A, i) + Low(B, i)
    {
      ghost var s, c0 := c.num, carry;
      var z;
      z, carry := AddWord(a.num[i], b.num[i], carry);
      c.num := c.num[i := z];
      WordStep(s, i, z, c0, carry, Low(A, i) + Low(B, i), (A[i] as int) + (B[i] as int));
      AtNext(A, 0, i);
      AtNext(B, 0, i);
      PlusDistribute(Pow(i), A[i], B[i]);
    }
  }

  /** The borrow of `bigsub` is lost when it subtracts in place, the word above the shorter operand
      must borrow too, and there is at least one more above that. */
  ghost predicate BorrowLost(u: seq<Word>, lu: nat, v: seq<Word>, lv: nat)
    requires lv <= lu <= |u| && lv <= |v|
  {
    lu > lv + 1 && Low(u, lv + 1) < Low(v, lv)
  }

  lemma BorrowStops(u: seq<Word>, v: seq<Word>, lv: nat)
    requires lv < |u| && lv <= |v|
    ensures Low(u, lv + 1) < Low(v, lv) <==> Low(u, lv) < Low(v, lv) && u[lv] == 0
  {
    hide At, Val, Pow;
    AtNext(u, 0, lv);
    LowBound(v, lv);
    if u[lv] > 0 {
      MulMono(Pow(lv), 1, u[lv]);
    }
  }

  /** `bigsub`: the difference of the magnitudes, exact just when no borrow is lost. */
  method BigSub(a: BigInt, b: BigInt, c: BigInt)
    requires a.Valid() && b.Valid() && c.Valid() && b.length <= a.length && a.Mag() >= b.Mag()
    modifies c
    ensures c.Valid() && c.Trimmed() && |c.num| == if old(|c.num|) < old(a.length) then old(a.length) else old(|c.num|)
    ensures var lost := c == a && old(BorrowLost(a.num, a.length, b.num, b.length));
            c.Mag() == old(a.Mag()) - old(b.Mag()) + (if lost then Pow(old(b.length) + 1) else 0)
    ensures c.length <= old(a.length) && ZeroFrom(c.num, c.length, old(a.length))
    ensures forall j :: old(a.length) <= j < |old(c.num)| ==>
              j < |c.num| && (c.num[j] == old(c.num)[j] || c.num[j] == 0)
    ensures c.sign == if c.Mag() == 0 then POS else old(c.sign)
  {
    hide At, Val, Pow;
    c.Guarantee(a.length);
    ghost var A, B, C := a.num, b.num, c.num;
    var la, lb := a.length, b.length;
    var carry := SubLow(a, b, c);
    LowBound(c.num, lb);
    BorrowSign(Low(c.num, lb), Pow(lb), carry, Low(A, lb), Low(B, lb));
    if lb < la {
      BorrowStops(A, B, lb);
    }
    ghost var extra;
    carry, extra := SubHigh(a, c, lb, carry, Low(B, lb), A);
    LowBound(c.num, la);
    FullDifference(Low(c.num, la), la, carry, Low(A, la), Low(B, lb), extra);
    c.length := la;
    c.Trim();
  }

  /** The borrow running on through the words only the larger operand has: each word is compared
      with the operand after it is written, so in place it stops after one word. */
  method SubHigh(a: BigInt, c: BigInt, lb: nat, borrow: int, ghost b: nat, ghost A: seq<Word>)
    returns (carry: int, ghost extra: nat)
    requires a.Valid() && c.Valid() && lb <= a.length <= |c.num| && a.length <= |A| && -1 <= borrow <= 0
    requires Low(c.num, lb) + Pow(lb) * borrow == Low(A, lb) - b
    requires forall j :: lb <= j < a.length ==> a.num[j] == A[j]
    modifies c`num
    ensures c.Valid() && |c.num| == old(|c.num|) && -1 <= carry <= 0
    ensures forall j :: a.length <= j < |c.num| ==> c.num[j] == old(c.num)[j]
    ensures extra == if c == a && a.length > lb && borrow == -1 && A[lb] == 0 then Pow(lb + 1) else 0
    ensures Low(c.num, a.length) + Pow(a.length) * carry == Low(A, a.length) - b + extra
  {
    hide At, Val, Pow;
    ghost var C := c.num;
    carry, extra := borrow, 0;
    for i := lb to a.length
      invariant |c.num| == |C| && -1 <= carry <= 0
      invariant forall j :: i <= j < a.length ==> j < |a.num| && a.num[j] == A[j]
      invariant forall j :: a.length <= j < |C| ==> c.num[j] == C[j]
      invariant i == lb ==> carry == borrow
      invariant c == a && i > lb ==> carry == 0
      invariant extra == if c == a && i > lb && borrow == -1 && A[lb] == 0 then Pow(lb + 1) else 0
      invariant Low(c.num, i) + Pow(i) * carry == Low(A, i) - b + extra
    {
      ghost var s, c0 := c.num, carry;
      var x: int := (a.num[i] as int) + carry;
      ghost var down: int := if x < 0 then -1 else 0;
      c.num := c.num[i := if x < 0 then x + W else x];
      carry := if c.num[i] > a.num[i] then -1 else 0;
      WordStep(s, i, c.num[i], c0, down, Low(A, i) - b + extra, A[i]);
      AtNext(A, 0, i);
      if carry != down {
        extra := Pow(lb + 1);
      }
    }
  }

  lemma BorrowSign(c: nat, p: nat, carry: int, a: int, b: int)
    requires c < p && -1 <= carry <= 0 && c + p * carry == a - b
    ensures carry == -1 <==> a < b
  {}

  lemma FullDifference(c: nat, la: nat, carry: int, a: int, b: int, extra: nat)
    requires a >= b && -1 <= carry <= 0 && c < Pow(la)
    requires c + Pow(la) * carry == a - b + extra
    ensures carry == 0 && (extra > 0 ==> extra < Pow(la))
  {
    var p := Pow(la);
    assert carry == -1 ==> p * carry == -(p as int);
  }

  /** The words both operands have. */
  method SubLow(a: BigInt, b: BigInt, c: BigInt) returns (carry: int)
    requires a.Valid() && b.Valid() && c.Valid() && b.length <= a.length <= |c.num|
    modifies c`num
    ensures c.Valid() && |c.num| == old(|c.num|) && a.Valid() && |a.num| == old(|a.num|) && -1 <= carry <= 0
    ensures forall j :: b.length <= j < |old(a.num)| ==> a.num[j] == old(a.num)[j]
    ensures forall j :: b.length <= j < |old(c.num)| ==> c.num[j] == old(c.num)[j]
    ensures Low(c.num, b.length) + Pow(b.length) * carry == Low(old(a.num), b.length) - Low(old(b.num), b.length)
  {
    hide At, Val, Pow;
    ghost var A, B, C := a.num, b.num, c.num;
    var lb := b.length;
    carry := 0;
    AtZero(A, 0);
    AtZero(B, 0);
    AtZero(C, 0);
    for i := 0 to lb
      invariant |c.num| == |C| && |a.num| == |A| && |b.num| == |B| && -1 <= carry <= 0
      invariant forall j :: i <= j < |A| ==> a.num[j] == A[j]
      invariant forall j :: i <= j < |B| ==> b.num[j] == B[j]
      invariant forall j :: i <= j < |C| ==> c.num[j] == C[j]
      invariant Low(c.num, i) + Pow(i) * carry == Low(A, i) - Low(B, i)
    {
      ghost var s, c0 := c.num, carry;
      var z;
      z, carry := SubWord(a.num[i], b.num[i], carry);
      c.num := c.num[i := z];
      WordStep(s, i, z, c0, carry, Low(A, i) - Low(B, i), (A[i] as int) - (B[i] as int));
      AtNext(A, 0, i);
      AtNext(B, 0, i);
      MinusDistribute(Pow(i), A[i], B[i]);
    }
  }

  // ---- the signed operations ----

  /** The number of words of a trimmed magnitude. */
  function WordsOf(n: nat): (k: nat)
    ensures k >= 1
  {
    if n < W then 1 else 1 + WordsOf(n / W)
  }

  lemma {:induction false} WordsOfBounds(n: nat)
    ensures n < Pow(WordsOf(n)) && (WordsOf(n) > 1 ==> n >= Pow(WordsOf(n) - 1))
  {
    if n < W {
      assert Pow(1) == W * Pow(0);
    } else {
      var k := WordsOf(n / W);
      WordsOfBounds(n / W);
      MulMono(W, n / W + 1, Pow(k));
      assert Pow(k) == W * Pow(k - 1);
      MulMono(W, Pow(k - 1), n / W);
    }
  }

  /** A number of at least k words that is below W^k, and at least W^(k-1) unless k is 1, has k words. */
  lemma WordsOfUnique(n: nat, k: nat)
    requires k >= 1 && n < Pow(k) && (k > 1 ==> n >= Pow(k - 1))
    ensures WordsOf(n) == k
  {
    hide Pow, WordsOf;
    WordsOfBounds(n);
    if k < WordsOf(n) {
      PowMono(k, WordsOf(n) - 1);
    } else if WordsOf(n) < k {
      PowMono(WordsOf(n), k - 1);
    }
  }

  lemma TrimmedLength(a: BigInt)
    requires a.Valid() && a.Trimmed()
    ensures a.length == WordsOf(a.Mag())
  {
    hide At, Val, Pow, WordsOf;
    TopIsPositive(a.num, a.length);
    WordsOfUnique(a.Mag(), a.length);
  }

  /** Subtracting v from u in place loses a borrow: u has more than one word above those of v, and
      its words up to the first of these are less than v. */
  predicate Loses(u: nat, v: nat) {
    u >= Pow(WordsOf(v) + 1) && u % Pow(WordsOf(v) + 1) < v
  }

  lemma LowIsMod(s: seq<Word>, k: nat, n: nat)
    requires k <= n <= |s|
    ensures Low(s, k) == Low(s, n) % Pow(k)
  {
    hide At, Val, Pow;
    AtSplit(s, 0, k, n - k);
    LowBound(s, k);
    ModOf(Low(s, k), Pow(k), At(s, k, n - k));
  }

  lemma ModOf(r: nat, p: nat, q: nat)
    requires r < p
    ensures (r + p * q) % p == r && (r + p * q) / p == q
  {
    DivModUnique(r + p * q, p, q, r);
  }

  lemma DivModUnique(n: int, p: nat, q: int, r: int)
    requires p > 0 && n == p * q + r && 0 <= r < p
    ensures n / p == q && n % p == r
  {
    var d := n / p - q;
    assert n == p * (n / p) + n % p;
    assert p * d == r - n % p by { MinusDistribute(p, n / p, q); }
    if d >= 1 { MulMono(p, 1, d); }
    if d <= -1 { MulMono(p, d, -1); }
  }

  lemma LosesWhenBorrowLost(a: BigInt, b: BigInt)
    requires a.Valid() && b.Valid() && a.Trimmed() && b.Trimmed() && b.length <= a.length
    ensures BorrowLost(a.num, a.length, b.num, b.length) <==> Loses(a.Mag(), b.Mag())
  {
    hide At, Val, Pow, WordsOf;
    TrimmedLength(a);
    TrimmedLength(b);
    var k := b.length + 1;
    if k < a.length {
      LowIsMod(a.num, k, a.length);
      TopIsPositive(a.num, a.length);
      PowMono(k, a.length - 1);
    } else {
      LowBound(a.num, a.length);
      PowMono(a.length, k);
    }
  }

  /** What `bigsub` computes: u - v, and a word too much when in place a borrow is lost. */
  function Less(u: nat, v: nat, inPlace: bool): nat
    requires u >= v
  {
    u - v + if inPlace && Loses(u, v) then Pow(WordsOf(v) + 1) else 0
  }

  /** What `bigSubtract` computes of x - y, given whether its target is x or y. */
  function Difference(x: int, y: int, isX: bool, isY: bool): int {
    if x >= 0 && y >= 0 then
      if x >= y then Less(x, y, isX) else -(Less(y, x, isY) as int)
    else if x < 0 && y < 0 then
      if x <= y then -(Less(-x, -y, isX) as int) else Less(-y, -x, isY)
    else x - y
  }

  /** `bigSubtract` is exact unless it subtracts in place from the larger operand and loses a borrow. */
  lemma DifferenceExact(x: int, y: int, isX: bool, isY: bool)
    requires x >= 0 && y >= 0
    ensures Difference(x, y, isX, isY) == x - y <==> !(x >= y && isX && Loses(x, y)) && !(x < y && isY && Loses(y, x))
  {
    hide Pow, WordsOf;
  }

  /** The words of c above its length are zero up to l. */
  ghost predicate Clean(c: BigInt, l: nat)
    reads c
  {
    l <= |c.num| && ZeroFrom(c.num, c.length, l)
  }

  /** `bigsub` on the larger and the smaller magnitude, as `bigAdd` and `bigSubtract` call it. */
  method SubLarger(a: BigInt, b: BigInt, c: BigInt, sign: int)
    requires a.Valid() && b.Valid() && c.Valid() && a.Trimmed() && b.Trimmed() && a.Mag() >= b.Mag()
    requires (sign == POS || sign == NEG)
    modifies c
    ensures c.Valid() && c.Trimmed() && c.sign == sign
    ensures c.Mag() == Less(old(a.Mag()), old(b.Mag()), c == a)
    ensures forall l :: (c == a || c == b) && old(Clean(c, l)) ==> Clean(c, l)
  {
    hide At, Val, Pow, WordsOf, Low;
    LongerIsLarger(a, b);
    LosesWhenBorrowLost(a, b);
    TrimmedLength(b);
    BigSub(a, b, c);
    c.sign := sign;
  }

  /** `bigSubtract`. */
  method BigSubtract(a: BigInt, b: BigInt, c: BigInt)
    requires a.Valid() && b.Valid() && c.Valid()
    modifies a`length, a`sign, b`length, b`sign, c
    ensures a.Valid() && b.Valid() && c.Valid() && c.Trimmed()
    ensures c.Value() == Difference(old(a.Value()), old(b.Value()), c == a, c == b)
    ensures a != c ==>
              && a.Value() == old(a.Value()) && (a.sign == old(a.sign) || a.sign == POS)
              && (old(a.Trimmed()) ==> a.length == old(a.length))
    ensures b != c ==>
              && b.Value() == old(b.Value()) && (b.sign == old(b.sign) || b.sign == POS)
              && (old(b.Trimmed()) ==> b.length == old(b.length))
    ensures old(a.sign) == POS && old(b.sign) == POS ==> c.sign == if old(a.Mag()) >= old(b.Mag()) then POS else NEG
    ensures forall l :: (c == a || c == b) && old(a.sign == b.sign) && old(Clean(c, l)) ==> Clean(c, l)
  {
    hide At, Val, Pow, WordsOf, Low, Loses;
    LosesNothing(a.Mag());
    LosesNothing(b.Mag());
    var signA, signB := a.sign, b.sign;
    if signA == signB {
      SubtractAlike(a, b, c);
    } else {
      BigAddition(a, b, c);
      c.sign := signA;
    }
  }

  /** `bigSubtract` of two numbers with the same sign. */
  method SubtractAlike(a: BigInt, b: BigInt, c: BigInt)
    requires a.Valid() && b.Valid() && c.Valid() && a.sign == b.sign
    modifies a`length, a`sign, b`length, b`sign, c
    ensures a.Valid() && b.Valid() && c.Valid() && c.Trimmed()
    ensures c.Mag() == if old(a.Mag()) >= old(b.Mag()) then Less(old(a.Mag()), old(b.Mag()), c == a)
              else Less(old(b.Mag()), old(a.Mag()), c == b)
    ensures c.sign == if old(a.Mag()) >= old(b.Mag()) then old(a.sign) else -old(a.sign)
    ensures a != c ==>
              && a.Value() == old(a.Value()) && (a.sign == old(a.sign) || a.sign == POS)
              && (old(a.Trimmed()) ==> a.length == old(a.length))
    ensures b != c ==>
              && b.Value() == old(b.Value()) && (b.sign == old(b.sign) || b.sign == POS)
              && (old(b.Trimmed()) ==> b.length == old(b.length))
    ensures forall l :: (c == a || c == b) && old(Clean(c, l)) ==> Clean(c, l)
  {
    hide At, Val, Pow, WordsOf, Low, Loses, Less;
    var sign := a.sign;
    var r := BigCompare(a, b);
    if r >= 0 {
      SubLarger(a, b, c, sign);
    } else {
      SubLarger(b, a, c, -sign);
    }
  }

  lemma LosesNothing(u: nat)
    ensures !Loses(u, u) && !Loses(u, 0)
  {
    hide Pow, WordsOf;
    WordsOfBounds(u);
    PowMono(WordsOf(u), WordsOf(u) + 1);
  }

  /** `bigAdd`. */
  method BigAdd(a: BigInt, b: BigInt, c: BigInt)
    requires a.Valid() && b.Valid() && c.Valid()
    modifies a`length, a`sign, b`length, b`sign, c
    ensures a.Valid() && b.Valid() && c.Valid() && c.Trimmed()
    ensures c.Value() == Difference(old(a.Value()), -old(b.Value()), c == a, c == b)
    ensures a != c ==>
              && a.Value() == old(a.Value()) && (a.sign == old(a.sign) || a.sign == POS)
              && (old(a.Trimmed()) ==> a.length == old(a.length))
    ensures b != c ==>
              && b.Value() == old(b.Value()) && (b.sign == old(b.sign) || b.sign == POS)
              && (old(b.Trimmed()) ==> b.length == old(b.length))
    ensures old(a.sign == b.sign) ==> c.sign == old(a.sign)
    ensures old(a.sign != b.sign) ==> c.sign == if (if old(a.sign) == POS then old(a.Mag()) > old(b.Mag())
              else old(b.Mag()) > old(a.Mag())) then POS else NEG
    ensures forall l :: (c == a || c == b) && old(a.sign != b.sign) && old(Clean(c, l)) ==> Clean(c, l)
  {
    hide At, Val, Pow, WordsOf, Low, Loses;
    LosesNothing(a.Mag());
    LosesNothing(b.Mag());
    if a.sign == NEG && b.sign == POS {
      AddOpposite(b, a, c);
    } else if b.sign == NEG && a.sign == POS {
      AddOpposite(a, b, c);
    } else {
      var sign := a.sign;
      BigAddition(a, b, c);
      c.sign := sign;
    }
  }

  /** `bigAdd` of a positive and a negative number. */
  method AddOpposite(a: BigInt, b: BigInt, c: BigInt)
    requires a.Valid() && b.Valid() && c.Valid() && a.sign == POS && b.sign == NEG
    modifies a`length, a`sign, b`length, b`sign, c
    ensures a.Valid() && b.Valid() && c.Valid() && c.Trimmed()
    ensures c.Mag() == if old(a.Mag()) > old(b.Mag()) then Less(old(a.Mag()), old(b.Mag()), c == a)
              else Less(old(b.Mag()), old(a.Mag()), c == b)
    ensures c.sign == if old(a.Mag()) > old(b.Mag()) then POS else NEG
    ensures a != c ==>
              && a.Value() == old(a.Value()) && (a.sign == old(a.sign) || a.sign == POS)
              && (old(a.Trimmed()) ==> a.length == old(a.length))
    ensures b != c ==>
              && b.Value() == old(b.Value()) && (b.sign == old(b.sign) || b.sign == POS)
              && (old(b.Trimmed()) ==> b.length == old(b.length))
    ensures forall l :: (c == a || c == b) && old(Clean(c, l)) ==> Clean(c, l)
  {
    hide At, Val, Pow, WordsOf, Low, Loses;
    var r := BigCompare(a, b);
    if r > 0 {
      SubLarger(a, b, c, POS);
    } else {
      SubLarger(b, a, c, NEG);
    }
  }

  /** `bigCopy`: the loop copies the words of a; those of b above them stay. */
  method BigCopy(a: BigInt, b: BigInt)
    requires a.Valid() && b.Valid()
    modifies b
    ensures b.Valid() && b.Mag() == old(a.Mag()) && b.sign == old(a.sign) && b.length == old(a.length)
    ensures forall i :: 0 <= i < b.length ==> b.num[i] == old(a.num)[i]
    ensures |b.num| == if old(|b.num|) < b.length then b.length else old(|b.num|)
  {
    b.Guarantee(a.length);
    ghost var A, n, size := a.num, a.length, |b.num|;
    var i := a.length;
    b.length := a.length;
    b.sign := a.sign;
    while i > 0
      invariant 0 <= i <= n && a.length == n == b.length && n <= |A| == |a.num| && n <= |b.num| == size
      invariant b.sign == old(a.sign)
      invariant forall j :: 0 <= j < i ==> a.num[j] == A[j]
      invariant forall j :: i <= j < n ==> b.num[j] == A[j]
    {
      i := i - 1;
      b.num := b.num[i := a.num[i]];
    }
    AtSame(A, b.num, 0, n);
    AtSame(old(a.num), A, 0, n);
  }
}
