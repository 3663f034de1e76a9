/**
 Base 2^32 numbers in memory: the word loops of the multi-precision library, working in place
 on one flat array of words in which a C pointer is an index.
 */
module Words {

  const W := 0x1_0000_0000
  type Word = x: int | 0 <= x < W

  /** W^n. */
  function Pow(n: nat): (p: nat)
    ensures p > 0
  {
    if n == 0 then 1 else W * Pow(n - 1)
  }

  /** The number a little-endian word sequence denotes. */
  function Val(s: seq<Word>): nat {
    if s == [] then 0 else Val(s[..|s| - 1]) + Pow(|s| - 1) * s[|s| - 1]
  }

  /** The number in the n words at p. */
  function At(s: seq<Word>, p: nat, n: nat): nat
    requires p + n <= |s|
  {
    Val(s[p..p + n])
  }

  lemma AtZero(s: seq<Word>, p: nat)
    requires p <= |s|
    ensures At(s, p, 0) == 0 && Pow(0) == 1
  {}

  lemma AtNext(s: seq<Word>, p: nat, n: nat)
    requires p + n < |s|
    ensures At(s, p, n + 1) == At(s, p, n) + Pow(n) * s[p + n]
    ensures Pow(n + 1) == W * Pow(n)
  {
    assert s[p..p + n + 1][..n] == s[p..p + n];
  }

  lemma AtOne(s: seq<Word>, p: nat)
    requires p < |s|
    ensures At(s, p, 1) == s[p] && Pow(1) == W
  {
    AtZero(s, p);
    AtNext(s, p, 0);
  }

  lemma {:induction false} PowSum(m: nat, n: nat)
    ensures Pow(m + n) == Pow(m) * Pow(n)
  {
    if n > 0 {
      PowSum(m, n - 1);
      assert Pow(m) * (W * Pow(n - 1)) == W * (Pow(m) * Pow(n - 1));
    }
  }

  /** A number splits into its low m words and the rest. */
  lemma {:induction false} AtSplit(s: seq<Word>, p: nat, m: nat, n: nat)
    requires p + m + n <= |s|
    ensures At(s, p, m + n) == At(s, p, m) + Pow(m) * At(s, p + m, n)
  {
    if n == 0 {
      assert s[p + m..p + m] == [];
    } else {
      AtSplit(s, p, m, n - 1);
      AtNext(s, p, m + n - 1);
      AtNext(s, p + m, n - 1);
      PowSum(m, n - 1);
      Distribute(Pow(m), At(s, p + m, n - 1), Pow(n - 1), s[p + m + n - 1]);
    }
  }

  lemma Distribute(a: int, x: int, b: int, y: int)
    ensures a * (x + b * y) == a * x + (a * b) * y
  {
    assert a * (b * y) == (a * b) * y;
  }

  lemma {:induction false} ValBound(s: seq<Word>)
    ensures Val(s) < Pow(|s|)
  {
    if s != [] {
      var n := |s| - 1;
      ValBound(s[..n]);
      MulMono(Pow(n), s[n], W - 1);
    }
  }

  lemma MulMono(a: nat, x: int, y: int)
    requires x <= y
    ensures a * x <= a * y
  {}

  lemma AtSame(s: seq<Word>, s': seq<Word>, p: nat, n: nat)
    requires p + n <= |s| && p + n <= |s'| && forall i :: p <= i < p + n ==> s'[i] == s[i]
    ensures At(s', p, n) == At(s, p, n)
  {
    assert s'[p..p + n] == s[p..p + n];
  }

  predicate Inside(i: int, p: nat, n: nat) { p <= i < p + n }

  predicate Apart(p: nat, m: nat, q: nat, n: nat) { p + m <= q || q + n <= p }

  /** s' differs from s at most in the n words at p. */
  ghost predicate Only(s: seq<Word>, s': seq<Word>, p: nat, n: nat) {
    |s'| == |s| && forall i :: 0 <= i < |s| && !Inside(i, p, n) ==> s'[i] == s[i]
  }

  /** Every loop below works out one more word: if low + p*c is the number so far with carry c,
      and x + W*c' is what the next word and the carry must hold, then so it goes on. */
  lemma CarryStep(p: int, low: int, c: int, x: int, c': int, was: int, add: int)
    requires x + W * c' == add + c
    requires low + p * c == was
    ensures (low + p * x) + (W * p) * c' == was + p * add
  {
    assert p * (x + W * c') == p * x + (W * p) * c';
    assert p * (add + c) == p * add + p * c;
  }

  /** The 32 by 32 bit product in two words. */
  method Umult(m: Word, a: Word) returns (hi: Word, lo: Word)
    ensures lo + W * hi == m * a <= (W - 1) * (W - 1)
  {
    MulMono(m, a, W - 1);
    MulMono(W - 1, m, W - 1);
    var z := m * a;
    assert 0 <= z <= (W - 1) * (W - 1) by { MulMono(m, 0, a); }
    hi, lo := z / W, z % W;
  }

  /** `LMULT`: adds m times the n words at src to the n words at dst; the carry is left over. */
  method Lmult(mem: array<Word>, dst: nat, m: Word, src: nat, n: nat) returns (carry: Word)
    requires dst + n <= mem.Length && src + n <= mem.Length && Apart(dst, n, src, n)
    modifies mem
    ensures Only(old(mem[..]), mem[..], dst, n)
    ensures At(mem[..], dst, n) + Pow(n) * carry == At(old(mem[..]), dst, n) + m * At(old(mem[..]), src, n)
  {
    ghost var o := mem[..];
    carry := 0;
    for i := 0 to n
      invariant Only(o, mem[..], dst, i)
      invariant At(mem[..], dst, i) + Pow(i) * carry == At(o, dst, i) + m * At(o, src, i)
    {
      ghost var s := mem[..];
      var sumh, suml := Umult(m, mem[src + i]);
      var d := mem[dst + i];
      ghost var c0 := carry;
      mem[dst + i], carry := MulAddWord(sumh, suml, carry, d);
      AtSame(s, mem[..], dst, i);
      AtNext(mem[..], dst, i);
      AtNext(o, dst, i);
      AtNext(o, src, i);
      LmultStep(Pow(i), At(s, dst, i), c0, mem[dst + i], carry, At(o, dst, i), m, At(o, src, i), o[dst + i],
                o[src + i]);
    }
  }

  /** One word of LMULT: the product and two additions with their carries. */
  method MulAddWord(hi: Word, lo: Word, c: Word, d: Word) returns (x: Word, c': Word)
    requires lo + W * hi <= (W - 1) * (W - 1)
    ensures x + W * c' == d + (lo + W * hi) + c
  {
    var sumh := hi;
    var suml := Wrap(lo + c);
    if suml < c {
      sumh := sumh + 1;
    }
    x := Wrap(d + suml);
    c' := sumh;
    if x < suml {
      c' := c' + 1;
    }
  }

  lemma LmultStep(p: int, low: int, c: int, x: int, c': int, d: int, m: int, v: int, dw: int, a: int)
    requires low + p * c == d + m * v
    requires x + W * c' == dw + m * a + c
    ensures (low + p * x) + (W * p) * c' == (d + p * dw) + m * (v + p * a)
  {
    CarryStep(p, low, c, x, c', d + m * v, dw + m * a);
    assert p * (dw + m * a) == p * dw + p * (m * a);
    assert m * (v + p * a) == m * v + m * (p * a);
    assert m * (p * a) == p * (m * a);
  }

  /** Unsigned 32-bit wrap-around of a sum of two words. */
  function Wrap(x: int): Word
    requires 0 <= x < 2 * W
  {
    if x < W then x else x - W
  }
}
