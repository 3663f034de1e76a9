/**
 Karatsuba multiplication on memory words, after `crypt/fastmult.c`: the three recursive products,
 the sums and differences with their carries, all in place.
 */
module Karatsuba {
  import opened Words

  /** SUBSTEP on one word: the difference with borrow, as 32-bit arithmetic computes it. */
  method SubWord(a: Word, b: Word, carry: int) returns (z: Word, carry': int)
    requires -1 <= carry <= 0
    ensures z + W * carry' == a - b + carry && -1 <= carry' <= 0
  {
    var d: int := (a as int) - (b as int);
    var suml: int := if d < 0 then d + W else d;
    var sumh := if suml > a then -1 else 0;
    z := if suml + carry < 0 then suml + carry + W else suml + carry;
    carry' := (if z > suml then -1 else 0) + sumh;
  }

  /** ADDSTEP on one word. */
  method AddWord(a: Word, b: Word, carry: int) returns (z: Word, carry': int)
    requires 0 <= carry <= 1
    ensures z + W * carry' == a + b + carry && 0 <= carry' <= 1
  {
    var suml := Wrap((a as int) + (b as int));
    var sumh := if suml < a then 1 else 0;
    z := Wrap((suml as int) + carry);
    carry' := (if z < suml then 1 else 0) + sumh;
  }

  /** ADD3STEP on one word. */
  method Add3Word(a: Word, b: Word, c: Word, carry: int) returns (z: Word, carry': int)
    requires 0 <= carry <= 2
    ensures z + W * carry' == a + b + c + carry && 0 <= carry' <= 2
  {
    var t := Wrap((a as int) + (b as int));
    var sumh := if t < a then 1 else 0;
    var suml := Wrap((t as int) + carry);
    sumh := sumh + if suml < t then 1 else 0;
    z := Wrap((suml as int) + (c as int));
    carry' := sumh + if z < suml then 1 else 0;
  }

  /** dst := u - v over n words, leaving a borrow of 0 or -1. */
  method SubWords(mem: array<Word>, dst: nat, u: nat, v: nat, n: nat) returns (carry: int)
    requires dst + n <= mem.Length && u + n <= mem.Length && v + n <= mem.Length
    requires Apart(dst, n, u, n) && Apart(dst, n, v, n)
    modifies mem
    ensures Only(old(mem[..]), mem[..], dst, n) && -1 <= carry <= 0
    ensures At(mem[..], dst, n) + Pow(n) * carry == At(old(mem[..]), u, n) - At(old(mem[..]), v, n)
  {
    hide At, Val, Pow;
    ghost var o := mem[..];
    AtZero(o, dst);
    AtZero(o, u);
    AtZero(o, v);
    carry := 0;
    for i := 0 to n
      invariant Only(o, mem[..], dst, i) && -1 <= carry <= 0
      invariant At(mem[..], dst, i) + Pow(i) * carry == At(o, u, i) - At(o, v, i)
    {
      ghost var s, c0 := mem[..], carry;
      mem[dst + i], carry := SubWord(mem[u + i], mem[v + i], carry);
      LinearStep(s, mem[..], dst, i, c0, carry, At(o, u, i) - At(o, v, i), (o[u + i] as int) - (o[v + i] as int));
      AtNext(o, u, i);
      AtNext(o, v, i);
      MinusDistribute(Pow(i), o[u + i], o[v + i]);
    }
  }

  lemma LinearStep(s: seq<Word>, s': seq<Word>, p: nat, i: nat, c: int, c': int, was: int, add: int)
    requires p + i < |s| == |s'| && Only(s, s', p + i, 1)
    requires s'[p + i] + W * c' == add + c
    requires At(s, p, i) + Pow(i) * c == was
    ensures At(s', p, i + 1) + Pow(i + 1) * c' == was + Pow(i) * add
  {
    Store(s, s', p, i);
    CarryStep(Pow(i), At(s, p, i), c, s'[p + i], c', was, add);
  }

  lemma MinusDistribute(p: int, x: int, y: int)
    ensures p * (x - y) == p * x - p * y
  {}

  lemma PlusDistribute(p: int, x: int, y: int)
    ensures p * (x + y) == p * x + p * y
  {}

  /** dst := u + v over n words, leaving a carry of 0 or 1. */
  method AddWords(mem: array<Word>, dst: nat, u: nat, v: nat, n: nat) returns (carry: int)
    requires dst + n <= mem.Length && u + n <= mem.Length && v + n <= mem.Length
    requires Apart(dst, n, u, n) && Apart(dst, n, v, n)
    modifies mem
    ensures Only(old(mem[..]), mem[..], dst, n) && 0 <= carry <= 1
    ensures At(mem[..], dst, n) + Pow(n) * carry == At(old(mem[..]), u, n) + At(old(mem[..]), v, n)
  {
    hide At, Val, Pow;
    ghost var o := mem[..];
    AtZero(o, dst);
    AtZero(o, u);
    AtZero(o, v);
    carry := 0;
    for i := 0 to n
      invariant Only(o, mem[..], dst, i) && 0 <= carry <= 1
      invariant At(mem[..], dst, i) + Pow(i) * carry == At(o, u, i) + At(o, v, i)
    {
      ghost var s, c0 := mem[..], carry;
      mem[dst + i], carry := AddWord(mem[u + i], mem[v + i], carry);
      LinearStep(s, mem[..], dst, i, c0, carry, At(o, u, i) + At(o, v, i), (o[u + i] as int) + (o[v + i] as int));
      AtNext(o, u, i);
      AtNext(o, v, i);
      PlusDistribute(Pow(i), o[u + i], o[v + i]);
    }
  }

  /** dst := u + v + w over n words, leaving a carry of at most 2. */
  method Add3Words(mem: array<Word>, dst: nat, u: nat, v: nat, w: nat, n: nat) returns (carry: int)
    requires dst + n <= mem.Length && u + n <= mem.Length && v + n <= mem.Length && w + n <= mem.Length
    requires Apart(dst, n, u, n) && Apart(dst, n, v, n) && Apart(dst, n, w, n)
    modifies mem
    ensures Only(old(mem[..]), mem[..], dst, n) && 0 <= carry <= 2
    ensures At(mem[..], dst, n) + Pow(n) * carry
         == At(old(mem[..]), u, n) + At(old(mem[..]), v, n) + At(old(mem[..]), w, n)
  {
    hide At, Val, Pow;
    ghost var o := mem[..];
    AtZero(o, dst);
    AtZero(o, u);
    AtZero(o, v);
    AtZero(o, w);
    carry := 0;
    for i := 0 to n
      invariant Only(o, mem[..], dst, i) && 0 <= carry <= 2
      invariant At(mem[..], dst, i) + Pow(i) * carry == At(o, u, i) + At(o, v, i) + At(o, w, i)
    {
      ghost var s, c0 := mem[..], carry;
      mem[dst + i], carry := Add3Word(mem[v + i], mem[w + i], mem[u + i], carry);
      ghost var add: int := (o[u + i] as int) + (o[v + i] as int);
      LinearStep(s, mem[..], dst, i, c0, carry, At(o, u, i) + At(o, v, i) + At(o, w, i), add + (o[w + i] as int));
      AtNext(o, u, i);
      AtNext(o, v, i);
      AtNext(o, w, i);
      PlusDistribute(Pow(i), add, o[w + i]);
      PlusDistribute(Pow(i), o[u + i], o[v + i]);
    }
  }

  lemma Store(s: seq<Word>, s': seq<Word>, p: nat, i: nat)
    requires p + i < |s| == |s'| && Only(s, s', p + i, 1)
    ensures At(s', p, i + 1) == At(s, p, i) + Pow(i) * s'[p + i]
  {
    AtSame(s, s', p, i);
    AtNext(s', p, i);
  }

  /** The final loop: adds a carry to the n words at p, stopping as soon as it is absorbed. */
  method Propagate(mem: array<Word>, p: nat, n: nat, k: nat) returns (carry: int)
    requires p + n <= mem.Length && k < W
    modifies mem
    ensures Only(old(mem[..]), mem[..], p, n) && 0 <= carry < W
    ensures At(mem[..], p, n) + Pow(n) * carry == At(old(mem[..]), p, n) + k
  {
    hide At, Val, Pow;
    ghost var o := mem[..];
    AtZero(o, p);
    carry := k;
    var i := 0;
    while i < n && carry != 0
      invariant 0 <= i <= n && 0 <= carry < W
      invariant Only(o, mem[..], p, i)
      invariant At(mem[..], p, i) + Pow(i) * carry == At(o, p, i) + k
    {
      ghost var s, c0 := mem[..], carry;
      mem[p + i] := Wrap((mem[p + i] as int) + carry);
      carry := if mem[p + i] < carry then 1 else 0;
      Store(s, mem[..], p, i);
      AtNext(o, p, i);
      CarryStep(Pow(i), At(s, p, i), c0, mem[p + i], carry, At(o, p, i) + k, o[p + i]);
      i := i + 1;
    }
    if i < n {
      AtSplit(mem[..], p, i, n - i);
      AtSplit(o, p, i, n - i);
      AtSame(o, mem[..], p + i, n - i);
    }
  }

  /** `LESSTHAN`: compares two numbers of n words from the top down. */
  method LessThan(mem: array<Word>, u: nat, v: nat, n: nat) returns (less: bool)
    requires u + n <= mem.Length && v + n <= mem.Length
    ensures less <==> At(mem[..], u, n) < At(mem[..], v, n)
  {
    hide At, Val, Pow;
    ghost var s := mem[..];
    AtZero(s, u);
    AtZero(s, v);
    var i := n;
    while i > 0 && mem[u + i - 1] == mem[v + i - 1]
      invariant 0 <= i <= n
      invariant At(s, u, n) - At(s, v, n) == At(s, u, i) - At(s, v, i)
    {
      AtNext(s, u, i - 1);
      AtNext(s, v, i - 1);
      i := i - 1;
    }
    if i == 0 {
      return false;
    }
    less := mem[u + i - 1] < mem[v + i - 1];
    DecidedAt(s, u, v, i - 1);
  }

  lemma DecidedAt(s: seq<Word>, u: nat, v: nat, i: nat)
    requires u + i < |s| && v + i < |s|
    ensures s[u + i] < s[v + i] ==> At(s, u, i + 1) < At(s, v, i + 1)
    ensures s[u + i] > s[v + i] ==> At(s, u, i + 1) > At(s, v, i + 1)
  {
    AtNext(s, u, i);
    AtNext(s, v, i);
    ValBound(s[u..u + i]);
    ValBound(s[v..v + i]);
    TopDecides(Pow(i), At(s, u, i), s[u + i], At(s, v, i), s[v + i]);
  }

  lemma TopDecides(p: nat, a: nat, x: nat, b: nat, y: nat)
    requires a < p && b < p
    ensures x < y ==> a + p * x < b + p * y
    ensures x > y ==> a + p * x > b + p * y
  {
    if x < y { MulMono(p, x + 1, y); PlusDistribute(p, x, 1); }
    if y < x { MulMono(p, y + 1, x); PlusDistribute(p, y, 1); }
  }

  method ClearWords(mem: array<Word>, c: nat, n: nat)
    requires c + n <= mem.Length
    modifies mem
    ensures Only(old(mem[..]), mem[..], c, n) && At(mem[..], c, n) == 0
  {
    hide At, Val, Pow;
    ghost var o := mem[..];
    AtZero(o, c);
    for i := 0 to n
      invariant Only(o, mem[..], c, i) && At(mem[..], c, i) == 0
    {
      ghost var s := mem[..];
      mem[c + i] := 0;
      Store(s, mem[..], c, i);
    }
  }

  /** `numtype_bigmultN`: the n^2 product of two numbers of n words into 2n words. */
  method MultN(mem: array<Word>, a: nat, b: nat, c: nat, n: nat)
    requires a + n <= mem.Length && b + n <= mem.Length && c + 2 * n <= mem.Length && n > 0
    requires Apart(c, 2 * n, a, n) && Apart(c, 2 * n, b, n)
    modifies mem
    ensures Only(old(mem[..]), mem[..], c, 2 * n)
    ensures At(mem[..], c, 2 * n) == At(old(mem[..]), a, n) * At(old(mem[..]), b, n)
  {
    hide At, Val, Pow;
    ghost var o := mem[..];
    ClearWords(mem, c, n);
    AtZero(o, a);
    for i := 0 to n
      invariant Only(o, mem[..], c, n + i)
      invariant At(mem[..], c, n + i) == At(o, a, i) * At(o, b, n)
    {
      ghost var s := mem[..];
      AtSame(o, s, b, n);
      MultRow(mem, mem[a + i], b, c, i, n);
      AtNext(o, a, i);
      RowStep(At(s, c, n + i), Pow(i), At(o, a, i), At(o, b, n), o[a + i], At(mem[..], c, n + i + 1));
    }
  }

  /** One row of the n^2 product: adds m * b at word i of c and stores the carry. */
  method MultRow(mem: array<Word>, m: Word, b: nat, c: nat, i: nat, n: nat)
    requires b + n <= mem.Length && c + i + n < mem.Length && Apart(c, i + n + 1, b, n)
    modifies mem
    ensures Only(old(mem[..]), mem[..], c, n + i + 1)
    ensures At(mem[..], c, n + i + 1) == At(old(mem[..]), c, n + i) + Pow(i) * (m * At(old(mem[..]), b, n))
  {
    hide At, Val, Pow;
    ghost var s := mem[..];
    var carry := Lmult(mem, c + i, m, b, n);
    ghost var s1 := mem[..];
    mem[c + i + n] := carry;
    ghost var s2 := mem[..];
    AtSplit(s, c, i, n);
    AtSplit(s2, c, i, n + 1);
    AtSame(s, s2, c, i);
    Store(s1, s2, c + i, n);
    PlusDistribute(Pow(i), At(s, c + i, n), m * At(s, b, n));
  }

  lemma RowStep(was: int, p: int, a: int, b: int, m: int, now: int)
    requires was == a * b
    requires now == was + p * (m * b)
    ensures now == (a + p * m) * b
  {
    assert (a + p * m) * b == a * b + (p * m) * b;
    assert p * (m * b) == (p * m) * b;
  }

  // ---- recursion ----

  /** n is the cutoff times a power of two. */
  predicate Halves(n: nat, cutoff: nat) {
    n == cutoff || (n > cutoff && n % 2 == 0 && Halves(n / 2, cutoff))
  }

  /** s' differs from s at most in the m words at p and the n words at q. */
  ghost predicate Only2(s: seq<Word>, s': seq<Word>, p: nat, m: nat, q: nat, n: nat) {
    |s'| == |s| && forall i :: 0 <= i < |s| && !Inside(i, p, m) && !Inside(i, q, n) ==> s'[i] == s[i]
  }

  /** dst := |x - y| over n words; tells whether x >= y. */
  method AbsDiff(mem: array<Word>, dst: nat, x: nat, y: nat, n: nat) returns (ge: bool)
    requires dst + n <= mem.Length && x + n <= mem.Length && y + n <= mem.Length
    requires Apart(dst, n, x, n) && Apart(dst, n, y, n)
    modifies mem
    ensures Only(old(mem[..]), mem[..], dst, n)
    ensures At(mem[..], dst, n) == if ge then At(old(mem[..]), x, n) - At(old(mem[..]), y, n)
                                   else At(old(mem[..]), y, n) - At(old(mem[..]), x, n)
  {
    hide At, Val, Pow;
    var u, v := x, y;
    ge := true;
    var less := LessThan(mem, u, v, n);
    if less {
      u, v := y, x;
      ge := false;
    }
    var carry := SubWords(mem, dst, u, v, n);
    AtBound(mem[..], dst, n);
    NoBorrow(At(mem[..], dst, n), Pow(n), carry);
  }

  lemma AtBound(s: seq<Word>, p: nat, n: nat)
    requires p + n <= |s|
    ensures At(s, p, n) < Pow(n)
  {
    ValBound(s[p..p + n]);
  }

  lemma NoBorrow(x: nat, p: nat, carry: int)
    requires x < p && x + p * carry >= 0 && -1 <= carry <= 0
    ensures x + p * carry == x
  {}

  /** From c = | a1*b1 | a0*b0 | and t = |a1-a0| * |b0-b1| to the full product: the two inner
      products are added in the middle, and the carry, never negative, is absorbed by the top. */
  method Combine(mem: array<Word>, c: nat, t: nat, h: nat, same: bool, ghost a: (nat, nat), ghost b: (nat, nat))
    requires c + 4 * h <= mem.Length && t + 4 * h <= mem.Length && Apart(c, 4 * h, t, 4 * h)
    requires At(mem[..], c, 2 * h) == a.0 * b.0 && At(mem[..], c + 2 * h, 2 * h) == a.1 * b.1
    requires At(mem[..], t, 2 * h) == if same then (a.1 - a.0) * (b.0 - b.1) else (a.1 - a.0) * (b.1 - b.0)
    requires a.0 < Pow(h) && a.1 < Pow(h) && b.0 < Pow(h) && b.1 < Pow(h)
    modifies mem
    ensures Only2(old(mem[..]), mem[..], c, 4 * h, t, 4 * h)
    ensures At(mem[..], c, 4 * h) == (a.0 + Pow(h) * a.1) * (b.0 + Pow(h) * b.1)
  {
    hide At, Val, Pow;
    var n := 2 * h;
    ghost var o := mem[..];
    var carryABAB := Add3Words(mem, t + n, c, c + h, c + n, n);
    ghost var s1 := mem[..];
    var carry;
    if same {
      carry := AddWords(mem, c + h, t + n, t, n);
    } else {
      carry := SubWords(mem, c + h, t + n, t, n);
    }
    ghost var s2 := mem[..];
    carry := carry + carryABAB;
    CrossSum(a, b);
    PlusDistribute(Pow(n), carry - carryABAB, carryABAB);
    MiddleDone(o, s1, s2, c, t, h, n, same, carryABAB, carry, (a.1 - a.0) * (b.0 - b.1), a.0 * b.1 + a.1 * b.0);
    var out := Propagate(mem, c + n + h, h, carry);
    ProductDone(o, s2, mem[..], c, h, carry, out, a, b);
  }

  lemma MiddleDone(o: seq<Word>, s1: seq<Word>, s2: seq<Word>, c: nat, t: nat, h: nat, n: nat, same: bool, k1: int,
                   k: int, d: int, cross: nat)
    requires c + n + n <= |o| == |s1| == |s2| && t + n + n <= |o| && h <= n
    requires Only(o, s1, t + n, n)
    requires At(o, c, n) + At(o, c + n, n) + d == cross
    requires At(o, t, n) == if same then d else -d
    requires At(s1, t + n, n) + Pow(n) * k1 == At(o, c, n) + At(o, c + h, n) + At(o, c + n, n)
    requires At(s2, c + h, n) + Pow(n) * k - Pow(n) * k1 == At(s1, t + n, n) + if same then At(s1, t, n) as int
              else -(At(s1, t, n) as int)
    ensures At(s2, c + h, n) + Pow(n) * k == At(o, c + h, n) + cross && k >= 0
  {
    hide At, Val, Pow;
    AtSame(o, s1, t, n);
    AtBound(s2, c + h, n);
    if k < 0 {
      MulMono(Pow(n), k, -1);
    }
  }

  lemma ProductDone(o: seq<Word>, s2: seq<Word>, s3: seq<Word>, c: nat, h: nat, k: nat, out: nat, a: (nat, nat),
                    b: (nat, nat))
    requires c + 4 * h <= |o| == |s2| == |s3|
    requires At(o, c, 2 * h) == a.0 * b.0 && At(o, c + 2 * h, 2 * h) == a.1 * b.1
    requires forall i :: c <= i < c + 4 * h && !Inside(i, c + h, 2 * h) ==> s2[i] == o[i]
    requires At(s2, c + h, 2 * h) + Pow(2 * h) * k == At(o, c + h, 2 * h) + (a.0 * b.1 + a.1 * b.0)
    requires Only(s2, s3, c + 3 * h, h)
    requires At(s3, c + 3 * h, h) + Pow(h) * out == At(s2, c + 3 * h, h) + k
    requires a.0 < Pow(h) && a.1 < Pow(h) && b.0 < Pow(h) && b.1 < Pow(h)
    ensures At(s3, c, 4 * h) == (a.0 + Pow(h) * a.1) * (b.0 + Pow(h) * b.1)
  {
    hide At, Val, Pow;
    AtSame(o, s3, c, h);
    AtSame(s2, s3, c + h, 2 * h);
    AtSame(o, s2, c + 3 * h, h);
    Windows(o, c, h);
    WindowsAfter(s3, c, h);
    AtBound(s3, c, 4 * h);
    PowSum(h, h);
    PowSum(2 * h, 2 * h);
    Assemble(Pow(h), a, b, At(o, c, h), At(o, c + h, h), At(o, c + 2 * h, h), At(o, c + 3 * h, h),
             At(o, c + h, 2 * h), At(s2, c + h, 2 * h), k, At(s3, c + 3 * h, h), out, At(s3, c, 4 * h));
  }

  /** The quarters of c in the full product, its halves and its middle. */
  lemma Windows(s: seq<Word>, c: nat, h: nat)
    requires c + 4 * h <= |s|
    ensures At(s, c, 2 * h) == At(s, c, h) + Pow(h) * At(s, c + h, h)
    ensures At(s, c + h, 2 * h) == At(s, c + h, h) + Pow(h) * At(s, c + 2 * h, h)
    ensures At(s, c + 2 * h, 2 * h) == At(s, c + 2 * h, h) + Pow(h) * At(s, c + 3 * h, h)
  {
    hide At, Val, Pow;
    AtSplit(s, c, h, h);
    AtSplit(s, c + h, h, h);
    AtSplit(s, c + 2 * h, h, h);
  }

  lemma WindowsAfter(s: seq<Word>, c: nat, h: nat)
    requires c + 4 * h <= |s|
    ensures At(s, c, 4 * h) == At(s, c, h) + Pow(h) * (At(s, c + h, 2 * h) + Pow(2 * h) * At(s, c + 3 * h, h))
  {
    hide At, Val, Pow;
    AtSplit(s, c, h, 3 * h);
    AtSplit(s, c + h, 2 * h, h);
  }

  lemma CrossSum(a: (nat, nat), b: (nat, nat))
    ensures a.0 * b.0 + a.1 * b.1 + (a.1 - a.0) * (b.0 - b.1) == a.0 * b.1 + a.1 * b.0
    ensures (a.1 - a.0) * (b.1 - b.0) == -((a.1 - a.0) * (b.0 - b.1))
    ensures a.0 * b.1 + a.1 * b.0 >= 0
  {
    assert a.0 * b.1 >= 0 && a.1 * b.0 >= 0;
  }

  /** Putting the quarters together gives the product, and nothing is carried out of it. */
  lemma Assemble(q: nat, a: (nat, nat), b: (nat, nat), l0: nat, h0: nat, l1: nat, h1: nat,
                 mid: nat, mid': nat, k: int, h1': nat, out: int, r: nat)
    requires l0 + q * h0 == a.0 * b.0 && l1 + q * h1 == a.1 * b.1 && mid == h0 + q * l1
    requires mid' + (q * q) * k == mid + (a.0 * b.1 + a.1 * b.0)
    requires h1' + q * out == h1 + k && out >= 0
    requires r == l0 + q * (mid' + (q * q) * h1') && r < (q * q) * (q * q)
    requires a.0 < q && a.1 < q && b.0 < q && b.1 < q
    ensures r == (a.0 + q * a.1) * (b.0 + q * b.1)
  {
    var cross := a.0 * b.1 + a.1 * b.0;
    var product := (a.0 + q * a.1) * (b.0 + q * b.1);
    ProductOfHalves(q, a.0, a.1, b.0, b.1);
    AssembleTop(q, l0, h0, l1, h1, mid, mid', k, h1', out, cross);
    ProductBound(q, a, b);
    if out >= 1 {
      MulMono((q * q) * (q * q), 1, out);
    }
  }

  lemma ProductOfHalves(q: int, a0: int, a1: int, b0: int, b1: int)
    ensures (a0 + q * a1) * (b0 + q * b1) == a0 * b0 + q * (a0 * b1 + a1 * b0) + (q * q) * (a1 * b1)
  {
    assert (a0 + q * a1) * (b0 + q * b1) == a0 * b0 + a0 * (q * b1) + (q * a1) * b0 + (q * a1) * (q * b1);
    assert a0 * (q * b1) == q * (a0 * b1);
    assert (q * a1) * b0 == q * (a1 * b0);
    assert (q * a1) * (q * b1) == (q * q) * (a1 * b1);
  }

  lemma AssembleTop(q: int, l0: int, h0: int, l1: int, h1: int, mid: int, mid': int, k: int, h1': int, out: int,
                    cross: int)
    requires mid == h0 + q * l1
    requires mid' + (q * q) * k == mid + cross
    requires h1' + q * out == h1 + k
    ensures l0 + q * (mid' + (q * q) * h1') + ((q * q) * (q * q)) * out
         == (l0 + q * h0) + q * cross + (q * q) * (l1 + q * h1)
  {
    var q2 := q * q;
    assert q2 * h1' == q2 * (h1 + k - q * out) == q2 * h1 + q2 * k - q2 * (q * out);
    assert mid' + q2 * h1' == mid + cross + q2 * h1 - q2 * (q * out);
    assert q * (mid + cross + q2 * h1 - q2 * (q * out)) == q * mid + q * cross + q * (q2 * h1) - q * (q2 * (q * out));
    assert q * (q2 * (q * out)) == (q2 * q2) * out;
    assert q * mid == q * h0 + q2 * l1;
    assert q * (q2 * h1) == q2 * (q * h1);
    assert q2 * (l1 + q * h1) == q2 * l1 + q2 * (q * h1);
  }

  lemma ProductBound(q: nat, a: (nat, nat), b: (nat, nat))
    requires a.0 < q && a.1 < q && b.0 < q && b.1 < q
    ensures (a.0 + q * a.1) * (b.0 + q * b.1) < (q * q) * (q * q)
  {
    PairBound(q, a.0, a.1);
    PairBound(q, b.0, b.1);
    BelowSquare(q * q, a.0 + q * a.1, b.0 + q * b.1);
  }

  lemma PairBound(q: nat, x: nat, y: nat)
    requires x < q && y < q
    ensures x + q * y < q * q
  {
    MulMono(q, y + 1, q);
    PlusDistribute(q, y, 1);
  }

  lemma BelowSquare(m: nat, x: nat, y: nat)
    requires x < m && y < m
    ensures x * y < m * m
  {
    MulMono(x, y, m);
    MulMono(m, x + 1, m);
    PlusDistribute(m, x, 1);
  }

  // ---- frames ----

  lemma OnlyAt(s: seq<Word>, s': seq<Word>, p: nat, m: nat, x: nat, k: nat)
    requires Only(s, s', p, m) && x + k <= |s| && Apart(p, m, x, k)
    ensures |s'| == |s| && At(s', x, k) == At(s, x, k)
  {
    AtSame(s, s', x, k);
  }

  lemma Only2At(s: seq<Word>, s': seq<Word>, p: nat, m: nat, q: nat, n: nat, x: nat, k: nat)
    requires Only2(s, s', p, m, q, n) && x + k <= |s| && Apart(p, m, x, k) && Apart(q, n, x, k)
    ensures |s'| == |s| && At(s', x, k) == At(s, x, k)
  {
    AtSame(s, s', x, k);
  }

  predicate Within(x: nat, k: nat, p: nat, m: nat, q: nat, n: nat) {
    (p <= x && x + k <= p + m) || (q <= x && x + k <= q + n)
  }

  lemma Only2Then(o: seq<Word>, s: seq<Word>, s': seq<Word>, p: nat, m: nat, q: nat, n: nat, x: nat, k: nat, y: nat,
                  l: nat)
    requires Only2(o, s, p, m, q, n) && Only2(s, s', x, k, y, l)
    requires Within(x, k, p, m, q, n) && Within(y, l, p, m, q, n)
    ensures Only2(o, s', p, m, q, n)
  {}

  /** The two differences that the recursion multiplies, into the upper half of c. */
  method Differences(mem: array<Word>, a: nat, b: nat, c: nat, h: nat) returns (same: bool)
    requires a + 2 * h <= mem.Length && b + 2 * h <= mem.Length && c + 4 * h <= mem.Length
    requires Apart(c, 4 * h, a, 2 * h) && Apart(c, 4 * h, b, 2 * h)
    modifies mem
    ensures Only2(old(mem[..]), mem[..], c, 4 * h, c, 0)
    ensures var x := At(old(mem[..]), a + h, h) - At(old(mem[..]), a, h);
            var y := At(old(mem[..]), b, h) - At(old(mem[..]), b + h, h);
            At(mem[..], c + 3 * h, h) * At(mem[..], c + 2 * h, h) == if same then x * y else -(x * y)
  {
    hide At, Val, Pow;
    ghost var o := mem[..];
    var signA := AbsDiff(mem, c + 3 * h, a + h, a, h);
    ghost var s1 := mem[..];
    OnlyAt(o, s1, c + 3 * h, h, b, h);
    OnlyAt(o, s1, c + 3 * h, h, b + h, h);
    var signB := AbsDiff(mem, c + 2 * h, b, b + h, h);
    OnlyAt(s1, mem[..], c + 2 * h, h, c + 3 * h, h);
    SignedProduct(At(o, a + h, h) - At(o, a, h), At(o, b, h) - At(o, b + h, h), signA, signB,
                  At(mem[..], c + 3 * h, h), At(mem[..], c + 2 * h, h));
    same := signA == signB;
  }

  lemma SignedProduct(x: int, y: int, signX: bool, signY: bool, u: nat, v: nat)
    requires u == if signX then x else -x
    requires v == if signY then y else -y
    ensures u * v == if signX == signY then x * y else -(x * y)
  {
    assert (-x) * (-y) == x * y && (-x) * y == -(x * y) && x * (-y) == -(x * y);
  }

  /** `recursiveMultiply`: c := a * b for n words, n the cutoff times a power of two; t is scratch. */
  method RecursiveMultiply(mem: array<Word>, a: nat, b: nat, c: nat, t: nat, n: nat, cutoff: nat)
    requires cutoff > 0 && Halves(n, cutoff)
    requires a + n <= mem.Length && b + n <= mem.Length && c + 2 * n <= mem.Length && t + 2 * n <= mem.Length
    requires Apart(c, 2 * n, a, n) && Apart(c, 2 * n, b, n) && Apart(c, 2 * n, t, 2 * n)
    requires Apart(t, 2 * n, a, n) && Apart(t, 2 * n, b, n)
    modifies mem
    ensures Only2(old(mem[..]), mem[..], c, 2 * n, t, 2 * n)
    ensures At(mem[..], c, 2 * n) == At(old(mem[..]), a, n) * At(old(mem[..]), b, n)
    decreases n, 2
  {
    hide At, Val, Pow, Only2, Only;
    ghost var o := mem[..];
    if n == cutoff {
      MultN(mem, a, b, c, n);
      OnlyTwo(o, mem[..], c, 2 * n, t, 2 * n);
      return;
    }
    var h := n / 2;
    AtSplit(o, a, h, h);
    AtSplit(o, b, h, h);
    HalfBounds(o, a, b, h);
    var same := FirstProduct(mem, a, b, c, t, h, cutoff);
    ghost var s3 := mem[..];
    InnerProducts(mem, a, b, c, t, h, cutoff, o);
    ghost var s5 := mem[..];
    ghost var x, y := (At(o, a, h), At(o, a + h, h)), (At(o, b, h), At(o, b + h, h));
    CrossSum(x, y);
    Combine(mem, c, t, h, same, x, y);
    Only2Then(o, s3, s5, c, 2 * n, t, 2 * n, c, 2 * n, t + n, n);
    Only2Then(o, s5, mem[..], c, 2 * n, t, 2 * n, c, 2 * n, t, 2 * n);
  }

  /** The product of the differences, into the lower half of t. */
  method FirstProduct(mem: array<Word>, a: nat, b: nat, c: nat, t: nat, h: nat, cutoff: nat) returns (same: bool)
    requires cutoff > 0 && Halves(h, cutoff)
    requires a + 2 * h <= mem.Length && b + 2 * h <= mem.Length && c + 4 * h <= mem.Length && t + 4 * h <= mem.Length
    requires Apart(c, 4 * h, a, 2 * h) && Apart(c, 4 * h, b, 2 * h) && Apart(c, 4 * h, t, 4 * h)
    modifies mem
    ensures Only2(old(mem[..]), mem[..], c, 4 * h, t, 4 * h)
    ensures var x := At(old(mem[..]), a + h, h) - At(old(mem[..]), a, h);
            var y := At(old(mem[..]), b, h) - At(old(mem[..]), b + h, h);
            At(mem[..], t, 2 * h) == if same then x * y else -(x * y)
    decreases h + h, 1
  {
    hide At, Val, Pow, Only2, Only;
    ghost var o := mem[..];
    same := Differences(mem, a, b, c, h);
    ghost var s2 := mem[..];
    RecursiveMultiply(mem, c + 3 * h, c + 2 * h, t, t + 2 * h, h, cutoff);
    Only2Refl(o, c, 4 * h, t, 4 * h);
    Only2Then(o, o, s2, c, 4 * h, t, 4 * h, c, 4 * h, c, 0);
    Only2Then(o, s2, mem[..], c, 4 * h, t, 4 * h, t, 2 * h, t + 2 * h, 2 * h);
  }

  /** The products of the low and of the high halves, side by side in c. */
  method InnerProducts(mem: array<Word>, a: nat, b: nat, c: nat, t: nat, h: nat, cutoff: nat, ghost o: seq<Word>)
    requires cutoff > 0 && Halves(h, cutoff)
    requires a + 2 * h <= mem.Length && b + 2 * h <= mem.Length && c + 4 * h <= mem.Length && t + 4 * h <= mem.Length
    requires Apart(c, 4 * h, a, 2 * h) && Apart(c, 4 * h, b, 2 * h) && Apart(c, 4 * h, t, 4 * h)
    requires Apart(t, 4 * h, a, 2 * h) && Apart(t, 4 * h, b, 2 * h)
    requires |o| == mem.Length && Only2(o, mem[..], c, 4 * h, t, 4 * h)
    modifies mem
    ensures Only2(old(mem[..]), mem[..], c, 4 * h, t + 2 * h, 2 * h)
    ensures At(mem[..], t, 2 * h) == At(old(mem[..]), t, 2 * h)
    ensures At(mem[..], c, 2 * h) == At(o, a, h) * At(o, b, h)
    ensures At(mem[..], c + 2 * h, 2 * h) == At(o, a + h, h) * At(o, b + h, h)
    decreases h + h, 1
  {
    hide At, Val, Pow, Only2, Only;
    ghost var s3 := mem[..];
    Operands(o, s3, c, t, h, a, b);
    RecursiveMultiply(mem, a, b, c, t + 2 * h, h, cutoff);
    ghost var s4 := mem[..];
    Only2Refl(s3, c, 4 * h, t + 2 * h, 2 * h);
    Only2Then(s3, s3, s4, c, 4 * h, t + 2 * h, 2 * h, c, 2 * h, t + 2 * h, 2 * h);
    Only2At(s3, s4, c, 4 * h, t + 2 * h, 2 * h, a + h, h);
    Only2At(s3, s4, c, 4 * h, t + 2 * h, 2 * h, b + h, h);
    RecursiveMultiply(mem, a + h, b + h, c + 2 * h, t + 2 * h, h, cutoff);
    ghost var s5 := mem[..];
    Only2At(s4, s5, c + 2 * h, 2 * h, t + 2 * h, 2 * h, c, 2 * h);
    Only2Then(s3, s4, s5, c, 4 * h, t + 2 * h, 2 * h, c + 2 * h, 2 * h, t + 2 * h, 2 * h);
    Only2At(s3, s5, c, 4 * h, t + 2 * h, 2 * h, t, 2 * h);
  }

  lemma Operands(o: seq<Word>, s: seq<Word>, c: nat, t: nat, h: nat, a: nat, b: nat)
    requires a + 2 * h <= |o| && b + 2 * h <= |o|
    requires Apart(c, 4 * h, a, 2 * h) && Apart(c, 4 * h, b, 2 * h)
    requires Apart(t, 4 * h, a, 2 * h) && Apart(t, 4 * h, b, 2 * h)
    requires Only2(o, s, c, 4 * h, t, 4 * h)
    ensures |s| == |o|
    ensures At(s, a, h) == At(o, a, h) && At(s, a + h, h) == At(o, a + h, h)
    ensures At(s, b, h) == At(o, b, h) && At(s, b + h, h) == At(o, b + h, h)
  {
    hide At, Only2;
    Only2At(o, s, c, 4 * h, t, 4 * h, a, h);
    Only2At(o, s, c, 4 * h, t, 4 * h, a + h, h);
    Only2At(o, s, c, 4 * h, t, 4 * h, b, h);
    Only2At(o, s, c, 4 * h, t, 4 * h, b + h, h);
  }

  lemma HalfBounds(s: seq<Word>, a: nat, b: nat, h: nat)
    requires a + 2 * h <= |s| && b + 2 * h <= |s|
    ensures At(s, a, h) < Pow(h) && At(s, a + h, h) < Pow(h) && At(s, b, h) < Pow(h) && At(s, b + h, h) < Pow(h)
  {
    hide At, Val, Pow;
    AtBound(s, a, h);
    AtBound(s, a + h, h);
    AtBound(s, b, h);
    AtBound(s, b + h, h);
  }

  lemma Only2Refl(s: seq<Word>, p: nat, m: nat, q: nat, n: nat)
    ensures Only2(s, s, p, m, q, n)
  {}

  lemma OnlyTwo(s: seq<Word>, s': seq<Word>, p: nat, m: nat, q: nat, n: nat)
    requires Only(s, s', p, m)
    ensures Only2(s, s', p, m, q, n)
  {}

  // ---- squaring ----

  /** `BUILDDIAG`: the squares of the n words at src, two words each. */
  method BuildDiag(mem: array<Word>, dst: nat, src: nat, n: nat)
    requires n > 0 && dst + 2 * n <= mem.Length && src + n <= mem.Length && Apart(dst, 2 * n, src, n)
    modifies mem
    ensures Only(old(mem[..]), mem[..], dst, 2 * n)
    ensures At(mem[..], dst, 2 * n) == Diagonal(old(mem[..])[src..src + n])
  {
    hide At, Val, Pow, Diagonal;
    ghost var o := mem[..];
    AtZero(o, dst);
    DiagonalNext(o, src, 0);
    var i := 0;
    while i < n
      invariant 0 <= i <= n && Only(o, mem[..], dst, 2 * i)
      invariant At(mem[..], dst, 2 * i) == Diagonal(o[src..src + i])
    {
      ghost var s := mem[..];
      var m := mem[src + i];
      mem[dst + 2 * i + 1], mem[dst + 2 * i] := Umult(m, m);
      DiagonalNext(o, src, i + 1);
      AtSame(s, mem[..], dst, 2 * i);
      AtNext(mem[..], dst, 2 * i);
      AtNext(mem[..], dst, 2 * i + 1);
      TwoWords(Pow(2 * i), mem[dst + 2 * i], mem[dst + 2 * i + 1]);
      i := i + 1;
    }
  }

  lemma TwoWords(p: int, lo: int, hi: int)
    ensures p * lo + (W * p) * hi == p * (lo + W * hi)
  {
    assert p * (lo + W * hi) == p * lo + p * (W * hi);
  }

  function Sq(x: int): int { x * x }

  /** The sum of the squares of the words, each at twice its position. */
  function Diagonal(a: seq<Word>): int {
    if a == [] then 0 else Diagonal(a[..|a| - 1]) + Pow(2 * (|a| - 1)) * Sq(a[|a| - 1])
  }

  lemma DiagonalNext(s: seq<Word>, p: nat, i: nat)
    requires p + i <= |s|
    ensures i == 0 ==> Diagonal(s[p..p + i]) == 0
    ensures i > 0 ==> Diagonal(s[p..p + i]) == Diagonal(s[p..p + i - 1]) + Pow(2 * (i - 1)) * Sq(s[p + i - 1])
  {
    if i > 0 {
      assert s[p..p + i][..i - 1] == s[p..p + i - 1];
    }
  }

  /** Twice the cross products of the words below i with the words above each of them. */
  function Cross(a: seq<Word>, i: nat): int
    requires i <= |a|
  {
    if i == 0 then 0 else Cross(a, i - 1) + Pow(2 * (i - 1) + 1) * (2 * (a[i - 1] * Val(a[i..])))
  }

  /** The diagonal and the cross products of a number make its square. */
  lemma {:induction false} SquareSum(a: seq<Word>)
    ensures Diagonal(a) + Cross(a, |a|) == Val(a) * Val(a)
  {
    hide Val, Pow, Cross, Diagonal;
    CrossNext(a, |a|);
    DiagonalLast(a);
    if a == [] {
      ValNone(a);
    } else {
      var n := |a| - 1;
      var b, x := a[..n], a[n];
      SquareSum(b);
      CrossGrows(a, n);
      PowSum(n, n);
      ValLast(a, b);
      SquareOfSum(Val(b), Pow(n), x);
    }
  }

  lemma DiagonalLast(a: seq<Word>)
    ensures a == [] ==> Diagonal(a) == 0
    ensures a != [] ==> Diagonal(a) == Diagonal(a[..|a| - 1]) + Pow(2 * (|a| - 1)) * Sq(a[|a| - 1])
  {}

  lemma SquareOfSum(v: int, p: int, x: int)
    ensures (v + p * x) * (v + p * x) == v * v + 2 * (p * (x * v)) + (p * p) * (x * x)
  {
    assert (v + p * x) * (v + p * x) == v * v + v * (p * x) + (p * x) * v + (p * x) * (p * x);
    assert v * (p * x) == p * (x * v) && (p * x) * v == p * (x * v);
    assert (p * x) * (p * x) == (p * p) * (x * x);
  }

  lemma ValLast(a: seq<Word>, b: seq<Word>)
    requires a != [] && b == a[..|a| - 1]
    ensures Val(a) == Val(b) + Pow(|b|) * a[|b|]
  {}

  /** Appending a top word adds twice its product with everything below. */
  lemma {:induction false} CrossGrows(a: seq<Word>, i: nat)
    requires i < |a|
    ensures Cross(a, i) == Cross(a[..|a| - 1], i) + 2 * (Pow(|a| - 1) * (a[|a| - 1] * Val(a[..i])))
  {
    hide Val, Pow, Cross;
    var n := |a| - 1;
    var b, x := a[..n], a[n];
    CrossNext(a, i);
    CrossNext(b, i);
    if i == 0 {
      ValNone(a[..i]);
    } else {
      CrossGrows(a, i - 1);
      ValLast(a[i..], b[i..]);
      ValLast(a[..i], a[..i - 1]);
      PowSum(2 * (i - 1) + 1, n - i);
      PowSum(n, i - 1);
      CrossTerm(Pow(2 * (i - 1) + 1), Pow(n - i), Pow(n), Pow(i - 1), a[i - 1], x, Val(b[i..]), Val(a[..i - 1]));
    }
  }

  lemma ValNone(a: seq<Word>)
    requires a == []
    ensures Val(a) == 0
  {}

  lemma CrossTerm(p: int, q: int, r: int, t: int, y: int, x: int, v: int, u: int)
    requires p * q == r * t
    ensures p * (2 * (y * (v + q * x))) + 2 * (r * (x * u)) == p * (2 * (y * v)) + 2 * (r * (x * (u + t * y)))
  {
    assert p * (2 * (y * (v + q * x))) == p * (2 * (y * v)) + 2 * ((p * q) * (y * x));
    assert r * (x * (u + t * y)) == r * (x * u) + (r * t) * (x * y);
  }

  /** One step of `SQUAREINNERLOOP`: doubles the product and adds it to two words, with the carry
      pending at the second. */
  method SquareWord(m: Word, a: Word, x: Word, y: Word, carry: Word) returns (x': Word, y': Word, carry': Word)
    requires carry <= 3
    ensures carry' <= 3
    ensures x' + W * y' + W * W * carry' == x + W * y + 2 * (m * a) + W * carry
  {
    var prodhi, prodlo := Umult(m, a);
    var suml, sumh;
    sumh, suml := Add32(prodlo, prodlo);
    ghost var c1: int;
    var c, o;
    o, x' := Add32(suml, x);
    c := sumh + carry + o;
    sumh, suml := Add32(prodhi, prodhi);
    o, suml := Add32(suml, y);
    sumh := sumh + o;
    o, y' := Add32(suml, c);
    carry' := sumh + o;
  }

  /** `add32`: sum and carry of two words. */
  method Add32(a: Word, b: Word) returns (hi: Word, lo: Word)
    ensures lo + W * hi == a + b && hi <= 1
  {
    lo := Wrap((a as int) + (b as int));
    hi := if lo < a then 1 else 0;
  }

  /** `SQUAREINNERLOOP`: adds twice m times the words start..end of src at dst, the carry running
      on until it is absorbed below word `top`, which the bound on the sum guarantees. */
  method SquareInner(mem: array<Word>, dst: nat, m: Word, src: nat, start: nat, end: nat, ghost base: nat,
                     ghost top: nat)
    requires start < end && src + end <= mem.Length && base <= dst
    requires dst + (end - start) + 1 <= base + top <= mem.Length
    requires Apart(base, top, src, end) && base + top <= dst + (end - start) + 1 + end
    requires At(mem[..], base, top) + Pow(dst - base) * (2 * (m * At(mem[..], src + start, end - start))) < Pow(top)
    modifies mem
    ensures Only(old(mem[..]), mem[..], base, top)
    ensures At(mem[..], base, top) ==
            At(old(mem[..]), base, top) + Pow(dst - base) * (2 * (m * At(old(mem[..]), src + start, end - start)))
  {
    hide At, Val, Pow;
    ghost var o, add := mem[..], 2 * (m * At(mem[..], src + start, end - start));
    var carry: Word, j, cp := 0, start, dst;
    AtZero(o, src + start);
    while j < end
      invariant start <= j <= end && cp == dst + (j - start) && carry <= 3
      invariant Only(o, mem[..], dst, j - start + 1)
      invariant At(mem[..], dst, j - start + 1) + Pow(j - start + 1) * carry
             == At(o, dst, j - start + 1) + 2 * (m * At(o, src + start, j - start))
    {
      ghost var s, c0 := mem[..], carry;
      mem[cp], mem[cp + 1], carry := SquareWord(m, mem[src + j], mem[cp], mem[cp + 1], carry);
      InnerStep(o, s, mem[..], dst, src + start, j - start, m, c0, carry);
      cp := cp + 1;
      j := j + 1;
    }
    RunCarry(mem, cp + 1, carry, end, o, base, top, dst, add);
  }

  /** The tail of `SQUAREINNERLOOP`: runs the carry on from cp. */
  method RunCarry(mem: array<Word>, at: nat, c: Word, most: nat, ghost o: seq<Word>, ghost base: nat, ghost top: nat,
                  ghost dst: nat, ghost add: nat)
    requires base <= dst <= at <= base + top <= |o| == mem.Length && base + top <= at + most
    requires Only(o, mem[..], dst, at - dst)
    requires At(mem[..], dst, at - dst) + Pow(at - dst) * c == At(o, dst, at - dst) + add
    requires At(o, base, top) + Pow(dst - base) * add < Pow(top)
    modifies mem
    ensures Only(o, mem[..], base, top)
    ensures At(mem[..], base, top) == At(o, base, top) + Pow(dst - base) * add
  {
    hide At, Val, Pow;
    var carry, cp, j := c, at, 0;
    ghost var n := at - dst;
    while carry != 0 && j < most
      invariant n == cp - dst && cp == at + j && cp <= base + top
      invariant Only(o, mem[..], dst, n)
      invariant At(mem[..], dst, n) + Pow(n) * carry == At(o, dst, n) + add
    {
      ghost var s, c0 := mem[..], carry;
      if cp == base + top {
        Settled(o, s, base, top, dst, n, carry, add);
      }
      carry, mem[cp] := Add32(mem[cp], carry);
      LinearStep(s, mem[..], dst, n, c0, carry, At(o, dst, n) + add, o[cp]);
      AtNext(o, dst, n);
      n := n + 1;
      cp := cp + 1;
      j := j + 1;
    }
    if carry != 0 {
      Settled(o, mem[..], base, top, dst, n, carry, add);
    }
    SumDone(o, mem[..], base, top, dst, n, add);
  }

  /** A carry that would leave the top contradicts the bound on the sum. */
  lemma Settled(o: seq<Word>, s: seq<Word>, base: nat, top: nat, dst: nat, n: nat, carry: nat, add: nat)
    requires base <= dst && dst + n == base + top <= |o| == |s|
    requires At(s, dst, n) + Pow(n) * carry == At(o, dst, n) + add
    requires At(o, base, top) + Pow(dst - base) * add < Pow(top)
    ensures carry == 0
  {
    hide At, Val, Pow;
    var d := dst - base;
    AtSplit(o, base, d, n);
    PowSum(d, n);
    PlusDistribute(Pow(d), At(o, dst, n), add);
    if At(o, dst, n) + add >= Pow(n) {
      MulMono(Pow(d), Pow(n), At(o, dst, n) + add);
    }
    if carry >= 1 {
      MulMono(Pow(n), 1, carry);
    }
  }

  lemma SumDone(o: seq<Word>, s: seq<Word>, base: nat, top: nat, dst: nat, n: nat, add: nat)
    requires base <= dst && dst + n <= base + top <= |o| == |s|
    requires Only(o, s, dst, n) && At(s, dst, n) == At(o, dst, n) + add
    ensures At(s, base, top) == At(o, base, top) + Pow(dst - base) * add
  {
    hide At, Val, Pow;
    var d, r := dst - base, base + top - (dst + n);
    AtSplit(o, base, d, n + r);
    AtSplit(s, base, d, n + r);
    AtSplit(o, dst, n, r);
    AtSplit(s, dst, n, r);
    AtSame(o, s, base, d);
    AtSame(o, s, dst + n, r);
    PlusDistribute(Pow(d), At(o, dst, n + r), add);
  }

  lemma InnerStep(o: seq<Word>, s: seq<Word>, s': seq<Word>, dst: nat, src: nat, k: nat, m: Word, c: int, c': int)
    requires dst + k + 2 <= |o| == |s| == |s'| && src + k < |o|
    requires Only(o, s, dst, k + 1) && Only(s, s', dst + k, 2)
    requires s'[dst + k] + W * s'[dst + k + 1] + W * W * c' ==
             s[dst + k] + W * s[dst + k + 1] + 2 * (m * o[src + k]) + W * c
    requires At(s, dst, k + 1) + Pow(k + 1) * c == At(o, dst, k + 1) + 2 * (m * At(o, src, k))
    ensures At(s', dst, k + 2) + Pow(k + 2) * c' == At(o, dst, k + 2) + 2 * (m * At(o, src, k + 1))
  {
    hide At, Val, Pow;
    AtNext(s, dst, k);
    AtNext(s', dst, k);
    AtNext(s', dst, k + 1);
    AtNext(o, dst, k + 1);
    AtNext(o, src, k);
    AtSame(s, s', dst, k);
    InnerSum(Pow(k), At(s, dst, k), s[dst + k], s[dst + k + 1], c, s'[dst + k], s'[dst + k + 1], c',
             At(o, dst, k + 1), m, At(o, src, k), o[src + k]);
  }

  lemma InnerSum(p: int, low: int, x: int, y: int, c: int, x': int, y': int, c': int, was: int, m: int, v: int, a: int)
    requires x' + W * y' + W * W * c' == x + W * y + 2 * (m * a) + W * c
    requires low + p * x + (W * p) * c == was + 2 * (m * v)
    ensures low + p * x' + (W * p) * y' + (W * (W * p)) * c' == was + (W * p) * y + 2 * (m * (v + p * a))
  {
    assert p * (x' + W * y' + W * W * c') == p * x' + (W * p) * y' + (W * (W * p)) * c';
    assert p * (x + W * y + 2 * (m * a) + W * c) == p * x + (W * p) * y + 2 * (p * (m * a)) + (W * p) * c;
    assert m * (v + p * a) == m * v + p * (m * a);
  }

  /** `numtype_bigsquareN`: the square of n words, from the diagonal and the doubled cross products. */
  method SquareN(mem: array<Word>, a: nat, c: nat, n: nat)
    requires n > 0 && a + n <= mem.Length && c + 2 * n <= mem.Length && Apart(c, 2 * n, a, n)
    modifies mem
    ensures Only(old(mem[..]), mem[..], c, 2 * n)
    ensures At(mem[..], c, 2 * n) == At(old(mem[..]), a, n) * At(old(mem[..]), a, n)
  {
    hide At, Val, Pow, Cross, Diagonal;
    ghost var o := mem[..];
    ghost var s := o[a..a + n];
    BuildDiag(mem, c, a, n);
    CrossNext(s, 0);
    var i := 0;
    while i < n - 1
      invariant 0 <= i <= n - 1 && Only(o, mem[..], c, 2 * n)
      invariant At(mem[..], c, 2 * n) == Diagonal(s) + Cross(s, i)
    {
      AtSame(o, mem[..], a + i + 1, n - i - 1);
      RowFits(o, a, n, i);
      SquareInner(mem, c + 2 * i + 1, mem[a + i], a, i + 1, n, c, 2 * n);
      i := i + 1;
    }
    CrossNext(s, n);
    SquareSum(s);
    AtIs(o, a, n);
  }

  lemma AtIs(s: seq<Word>, p: nat, n: nat)
    requires p + n <= |s|
    ensures At(s, p, n) == Val(s[p..p + n])
  {}

  /** The next row of cross products, and that it fits. */
  lemma RowFits(o: seq<Word>, p: nat, n: nat, i: nat)
    requires i + 1 < n && p + n <= |o|
    ensures var s := o[p..p + n];
            var row := Pow(2 * i + 1) * (2 * (o[p + i] * At(o, p + i + 1, n - i - 1)));
            Cross(s, i + 1) == Cross(s, i) + row && Diagonal(s) + Cross(s, i) + row < Pow(2 * n)
  {
    hide Val, Pow, Cross, Diagonal;
    var s := o[p..p + n];
    CrossNext(s, i + 1);
    assert o[p + i + 1..p + n] == s[i + 1..];
    CrossMonotone(s, i + 1, n);
    SquareSum(s);
    SquareFits(s);
  }

  lemma CrossNext(a: seq<Word>, i: nat)
    requires i <= |a|
    ensures i == 0 ==> Cross(a, i) == 0
    ensures i > 0 ==> Cross(a, i) == Cross(a, i - 1) + Pow(2 * (i - 1) + 1) * (2 * (a[i - 1] * Val(a[i..])))
    ensures i > 0 && i == |a| ==> Cross(a, i) == Cross(a, i - 1)
  {
    if i > 0 && i == |a| {
      assert a[i..] == [];
    }
  }

  lemma {:induction false} CrossMonotone(a: seq<Word>, i: nat, j: nat)
    requires i <= j <= |a|
    ensures Cross(a, i) <= Cross(a, j)
  {
    hide Val, Pow;
    if i < j {
      CrossMonotone(a, i, j - 1);
      MulMono(a[j - 1], 0, Val(a[j..]));
      MulMono(Pow(2 * (j - 1) + 1), 0, 2 * (a[j - 1] * Val(a[j..])));
    }
  }

  lemma SquareFits(a: seq<Word>)
    ensures Val(a) * Val(a) < Pow(2 * |a|)
  {
    ValBound(a);
    PowSum(|a|, |a|);
    BelowSquare(Pow(|a|), Val(a), Val(a));
  }

  /** `recursiveSquare`: c := a * a, with three recursive squares. */
  method RecursiveSquare(mem: array<Word>, a: nat, c: nat, t: nat, n: nat, cutoff: nat)
    requires cutoff > 0 && Halves(n, cutoff)
    requires a + n <= mem.Length && c + 2 * n <= mem.Length && t + 2 * n <= mem.Length
    requires Apart(c, 2 * n, a, n) && Apart(c, 2 * n, t, 2 * n) && Apart(t, 2 * n, a, n)
    modifies mem
    ensures Only2(old(mem[..]), mem[..], c, 2 * n, t, 2 * n)
    ensures At(mem[..], c, 2 * n) == At(old(mem[..]), a, n) * At(old(mem[..]), a, n)
    decreases n
  {
    hide At, Val, Pow, Only2, Only;
    ghost var o := mem[..];
    if n == cutoff {
      SquareN(mem, a, c, n);
      OnlyTwo(o, mem[..], c, 2 * n, t, 2 * n);
      return;
    }
    var h := n / 2;
    AtSplit(o, a, h, h);
    HalfBounds(o, a, a, h);
    var ge := AbsDiff(mem, c + 2 * h, a + h, a, h);
    ghost var s1 := mem[..];
    OnlyTwo(o, s1, c + 2 * h, h, t, 0);
    ghost var x := (At(o, a, h), At(o, a + h, h));
    ghost var d: int := (At(o, a + h, h) as int) - (At(o, a, h) as int);
    SignedProduct(d, d, ge, ge, At(s1, c + 2 * h, h), At(s1, c + 2 * h, h));
    RecursiveSquare(mem, c + 2 * h, t, t + n, h, cutoff);
    ghost var s2 := mem[..];
    Only2Refl(o, c, 2 * n, t, 2 * n);
    Only2Then(o, o, s1, c, 2 * n, t, 2 * n, c + 2 * h, h, t, 0);
    Only2Then(o, s1, s2, c, 2 * n, t, 2 * n, t, n, t + n, n);
    Operands(o, s2, c, t, h, a, a);
    RecursiveSquare(mem, a, c, t + n, h, cutoff);
    ghost var s3 := mem[..];
    Only2Then(o, s2, s3, c, 2 * n, t, 2 * n, c, n, t + n, n);
    Operands(o, s3, c, t, h, a, a);
    Only2At(s2, s3, c, n, t + n, n, t, n);
    RecursiveSquare(mem, a + h, c + n, t + n, h, cutoff);
    ghost var s4 := mem[..];
    Only2Then(o, s3, s4, c, 2 * n, t, 2 * n, c + n, n, t + n, n);
    Only2At(s3, s4, c + n, n, t + n, n, t, n);
    Only2At(s3, s4, c + n, n, t + n, n, c, n);
    Combine(mem, c, t, h, false, x, x);
    Only2Then(o, s4, mem[..], c, 2 * n, t, 2 * n, c, 2 * n, t, 2 * n);
  }
}
