/**
 Products of multi-precision numbers: `crypt/coremult.c`, `lbigmult` and `bigsquare` of `crypt/bigmath.c`,
 and the entry points of `crypt/fastmult.c` that bring every length to a power of two.
 */
module BigMult {
  import opened Words
  import opened Karatsuba
  import opened BigNum

  function Prod(x: int, y: int): int { x * y }

  function ProdNat(x: nat, y: nat): nat { x * y }

  /** m times x, k words up. */
  function Shifted(k: nat, m: nat, x: nat): nat { Pow(k) * (m * x) }

  /** Number storage laid out in one memory. */
  method Lay(s: seq<Word>) returns (mem: array<Word>)
    ensures fresh(mem) && mem[..] == s
  {
    mem := new Word[|s|](i requires 0 <= i < |s| => s[i]);
  }

  lemma SideBySide(s: seq<Word>, t: seq<Word>, n: nat)
    requires n <= |t|
    ensures At(s + t, |s|, n) == Low(t, n)
  {
    assert (s + t)[|s|..|s| + n] == t[0..0 + n];
  }

  /** LMULT from one number's words into another's, both in one memory. */
  method LmultInto(c: BigInt, offset: nat, m: Word, a: BigInt, n: nat) returns (carry: Word)
    requires a != c && offset + n <= |c.num| && n <= |a.num|
    modifies c`num
    ensures |c.num| == old(|c.num|)
    ensures forall j :: 0 <= j < |c.num| && !(offset <= j < offset + n) ==> c.num[j] == old(c.num)[j]
    ensures Low(c.num, offset + n) + Pow(offset + n) * carry ==
            old(Low(c.num, offset + n)) + Shifted(offset, m, Low(a.num, n))
  {
    hide At, Val, Pow, Shifted;
    ghost var o := c.num;
    var mem := Lay(c.num + a.num);
    ghost var s := mem[..];
    carry := Lmult(mem, offset, m, |c.num|, n);
    Accumulated(o, a.num, s, mem[..], offset, m, n, carry);
    c.num := mem[..|c.num|];
  }

  lemma Accumulated(o: seq<Word>, a: seq<Word>, s: seq<Word>, t: seq<Word>, offset: nat, m: Word, n: nat, carry: Word)
    requires s == o + a && |t| == |s| && offset + n <= |o| && n <= |a| && Only(s, t, offset, n)
    requires At(t, offset, n) + Pow(n) * carry == At(s, offset, n) + m * At(s, |o|, n)
    ensures Low(t[..|o|], offset + n) + Pow(offset + n) * carry == Low(o, offset + n) + Shifted(offset, m, Low(a, n))
    ensures forall j :: 0 <= j < |o| && !(offset <= j < offset + n) ==> t[..|o|][j] == o[j]
  {
    hide At, Val, Pow;
    var r := t[..|o|];
    SideBySide(o, a, n);
    AtSplit(r, 0, offset, n);
    AtSplit(o, 0, offset, n);
    AtSame(o, r, 0, offset);
    AtSame(s, o, offset, n);
    AtSame(t, r, offset, n);
    PowSum(offset, n);
    AccumulatedSum(Pow(offset), Pow(n), At(r, offset, n), carry, At(o, offset, n), m, Low(a, n));
  }

  lemma AccumulatedSum(p: int, q: int, x: int, carry: int, y: int, m: int, a: int)
    requires x + q * carry == y + m * a
    ensures p * x + (p * q) * carry == p * y + p * (m * a)
  {
    assert p * (x + q * carry) == p * x + (p * q) * carry;
    assert p * (y + m * a) == p * y + p * (m * a);
  }

  /** `numtype_bigmult`: adds sb times a to c, `offset` words up. */
  method NumtypeBigmult(a: BigInt, sb: Word, c: BigInt, offset: nat)
    requires a.Valid() && c.Valid() && a != c
    modifies c
    ensures c.Valid() && c.Trimmed() && c.Mag() == old(c.Mag()) + Shifted(offset, sb, a.Mag())
    ensures Clean(c, offset + a.length) && c.sign == (if c.Mag() == 0 then POS else old(c.sign))
    ensures |c.num| >= old(|c.num|)
  {
    hide At, Val, Pow, Shifted;
    var i := a.length + offset;
    c.Guarantee(i + 2);
    var gap: int := c.length - i;
    if gap < 0 {
      FillGap(c, i);
    }
    ghost var m, o := c.Mag(), c.num;
    var carry := LmultInto(c, offset, sb, a, a.length);
    ghost var add := Shifted(offset, sb, a.Mag());
    if gap > 0 {
      carry := RunCarry(c, i, carry, o, add);
    } else {
      c.length := i;
    }
    if carry != 0 {
      TopWord(c, carry, m + add);
    }
    c.Trim();
  }

  /** The zero words between c and the first word the product reaches, and one more. */
  method FillGap(c: BigInt, i: nat)
    requires c.Valid() && c.length < i < |c.num|
    modifies c`num
    ensures c.Valid() && |c.num| == old(|c.num|) && Low(c.num, i) == old(c.Mag()) == c.Mag()
  {
    hide At, Val, Pow;
    ghost var o := c.num;
    for j := c.length to i + 1
      invariant |c.num| == |o| && ZeroFrom(c.num, c.length, j)
      invariant forall k :: 0 <= k < c.length ==> c.num[k] == o[k]
    {
      c.num := c.num[j := 0];
    }
    AtSame(o, c.num, 0, c.length);
    LowZeros(c.num, c.length, i);
  }

  /** The carry running on above the product, through words c already has. */
  method RunCarry(c: BigInt, i: nat, carry0: Word, ghost o: seq<Word>, ghost add: nat) returns (carry: Word)
    requires c.Valid() && i < c.length && |o| == |c.num|
    requires Low(c.num, i) + Pow(i) * carry0 == Low(o, i) + add
    requires forall j :: i <= j < |o| ==> c.num[j] == o[j]
    modifies c`num
    ensures c.Valid() && |c.num| == old(|c.num|)
    ensures Low(c.num, c.length) + Pow(c.length) * carry == Low(o, c.length) + add
  {
    hide At, Val, Pow;
    var cp, going := i, true;
    carry := carry0;
    while going
      invariant i <= cp <= c.length && |c.num| == |o| && (going ==> cp < c.length)
      invariant (!going && cp < c.length ==> carry == 0)
      invariant Low(c.num, cp) + Pow(cp) * carry == Low(o, cp) + add
      invariant forall j :: cp <= j < |o| ==> c.num[j] == o[j]
      decreases c.length - cp, going
    {
      ghost var s, c0 := c.num, carry;
      var z := Wrap((c.num[cp] as int) + carry);
      carry := if z < carry then 1 else 0;
      c.num := c.num[cp := z];
      WordStep(s, cp, z, c0, carry, Low(o, cp) + add, o[cp]);
      AtNext(o, 0, cp);
      cp := cp + 1;
      going := carry != 0 && cp < c.length;
    }
    SameAbove(o, c.num, cp, c.length);
  }

  lemma SameAbove(s: seq<Word>, t: seq<Word>, k: nat, n: nat)
    requires k <= n <= |s| == |t| && forall j :: k <= j < |s| ==> t[j] == s[j]
    ensures Low(t, n) - Low(s, n) == Low(t, k) - Low(s, k)
  {
    hide At, Val, Pow;
    AtSplit(s, 0, k, n - k);
    AtSplit(t, 0, k, n - k);
    AtSame(s, t, k, n - k);
  }

  /** The carry out of the top of c becomes its top word; the storage grows for it if it must. */
  method TopWord(c: BigInt, carry: Word, ghost sum: nat)
    requires c.Valid() && carry != 0 && Low(c.num, c.length) + Pow(c.length) * carry == sum
    modifies c`num, c`length
    ensures c.Valid() && c.Mag() == sum && c.length == old(c.length) + 1 && |c.num| >= old(|c.num|)
    ensures forall j :: 0 <= j < old(c.length) ==> c.num[j] == old(c.num)[j]
  {
    hide At, Val, Pow;
    c.Guarantee(c.length + 1);
    WordStep(c.num, c.length, carry, carry, 0, sum, 0);
    c.num := c.num[c.length := carry];
    c.length := c.length + 1;
  }

  // ---- the n^2 product ----

  /** `lbigmult`. */
  method Lbigmult(a: BigInt, b: BigInt, c: BigInt)
    requires a.Valid() && b.Valid() && c.Valid() && a.Trimmed() && b.Trimmed() && c != a && c != b
    modifies c
    ensures c.Valid() && c.Trimmed() && c.Mag() == Prod(a.Mag(), b.Mag())
  {
    hide At, Val, Pow, Shifted, Prod;
    c.Reset(0);
    ProdZero(a.Mag(), b.Mag());
    ZeroIsWord(a);
    ZeroIsWord(b);
    if !(a.length == 1 && a.num[0] == 0) && !(b.length == 1 && b.num[0] == 0) {
      c.Guarantee(a.length + b.length);
      AtZero(b.num, 0);
      for i := 0 to b.length
        invariant c.Valid() && c.Trimmed() && c.Mag() == Prod(a.Mag(), Low(b.num, i))
      {
        RowSum(a.Mag(), b.num, i);
        NumtypeBigmult(a, b.num[i], c, i);
      }
      c.sign := if a.sign == b.sign then POS else NEG;
    }
    c.Trim();
  }

  lemma ProdZero(x: int, y: int)
    ensures Prod(x, 0) == 0 && Prod(0, y) == 0 && Prod(x, y) == Prod(y, x)
  {}

  /** A trimmed number is zero just when it is the word zero. */
  lemma ZeroIsWord(a: BigInt)
    requires a.Valid() && a.Trimmed()
    ensures a.Mag() == 0 <==> a.length == 1 && a.num[0] == 0
  {
    hide At, Val, Pow;
    TopIsPositive(a.num, a.length);
  }

  lemma RowSum(a: nat, b: seq<Word>, i: nat)
    requires i < |b|
    ensures Prod(a, Low(b, i + 1)) == Prod(a, Low(b, i)) + Shifted(i, b[i], a)
  {
    hide At, Val, Pow;
    AtNext(b, 0, i);
    assert a * (Low(b, i) + Pow(i) * b[i]) == a * Low(b, i) + Pow(i) * (b[i] * a) by {
      assert a * (Pow(i) * b[i]) == Pow(i) * (b[i] * a);
    }
  }

  /** `bigsquare`. */
  method Bigsquare(a: BigInt, c: BigInt)
    requires a.Valid() && c.Valid() && a != c
    modifies c
    ensures c.Valid() && c.Trimmed() && c.Mag() == Prod(a.Mag(), a.Mag())
  {
    hide At, Val, Pow, Prod;
    var n := a.length;
    c.Guarantee(2 * n);
    c.Reset(0);
    var mem := Lay(c.num + a.num);
    ghost var s := mem[..];
    SideBySide(c.num, a.num, n);
    SquareN(mem, |c.num|, 0, n);
    TakeProduct(c, mem[..], n, a.Mag(), a.Mag());
    c.num := mem[..|c.num|];
    c.length := 2 * n;
    c.Trim();
  }

  lemma TakeProduct(c: BigInt, t: seq<Word>, n: nat, x: int, y: int)
    requires 2 * n <= |c.num| <= |t| && At(t, 0, 2 * n) == x * y
    ensures Low(t[..|c.num|], 2 * n) == Prod(x, y)
  {
    AtSame(t, t[..|c.num|], 0, 2 * n);
  }

  // ---- any length ----

  /** Powers of two divide each other down to the smaller. */
  lemma {:induction false} HalvesTo(n: nat, k: nat)
    requires Halves(n, 2) && Halves(k, 2) && k <= n
    ensures Halves(n, k)
    decreases n
  {
    if k < n && k > 2 {
      HalvesTo(n / 2, k / 2);
      HalvesDouble(n / 2, k / 2);
    }
  }

  lemma {:induction false} HalvesDouble(n: nat, k: nat)
    requires Halves(n, k) && k > 0
    ensures Halves(2 * n, 2 * k)
  {
    if n != k {
      var h := n / 2;
      HalvesDouble(h, k);
      assert 2 * h == n && 2 * n > 2 * k && (2 * n) % 2 == 0 && (2 * n) / 2 == 2 * h;
    }
  }

  /** Distinct powers of two differ at least by a factor of two. */
  lemma {:induction false} HalvesGap(n: nat, k: nat)
    requires Halves(n, 2) && Halves(k, 2) && n < k
    ensures 2 * n <= k
    decreases k
  {
    if n > 2 {
      HalvesGap(n / 2, k / 2);
    }
  }

  /** `get_recurse_len`: the largest power of two that is at most alen. */
  method GetRecurseLen(alen: nat) returns (r: nat)
    requires alen >= 2
    ensures Halves(r, 2) && r <= alen < 2 * r
    ensures forall k: nat :: Halves(k, 2) && k <= alen ==> k <= r && Halves(r, k)
  {
    r := 2;
    while !(r <= alen < 2 * r)
      invariant Halves(r, 2) && r <= alen
      decreases alen - r
    {
      r := 2 * r;
    }
    forall k: nat | Halves(k, 2) && k <= alen
      ensures k <= r && Halves(r, k)
    {
      if r < k {
        HalvesGap(r, k);
      }
      HalvesTo(r, k);
    }
  }

  lemma FourBlocks(c: seq<Word>, a: seq<Word>, b: seq<Word>, t: seq<Word>, n: nat)
    requires n <= |a| && n <= |b|
    ensures At(c + a + b + t, |c|, n) == Low(a, n) && At(c + a + b + t, |c| + |a|, n) == Low(b, n)
  {
    var s := c + a + b + t;
    assert s[|c|..|c| + n] == a[0..0 + n];
    assert s[|c| + |a|..|c| + |a| + n] == b[0..0 + n];
  }

  /** The Karatsuba product of the low r words of a and b, into c. */
  method KaratsubaInto(a: BigInt, b: BigInt, c: BigInt, r: nat, cutoff: nat)
    requires a.Valid() && b.Valid() && c.Valid() && c != a && c != b
    requires 0 < cutoff <= r && Halves(r, cutoff) && r <= a.length && r <= b.length && 2 * r <= |c.num|
    modifies c
    ensures c.Valid() && c.Trimmed() && c.Mag() == Prod(Low(a.num, r), Low(b.num, r))
  {
    hide At, Val, Pow, Prod, Halves;
    var tmp := Zeros(2 * r);
    var mem := Lay(c.num + a.num + b.num + tmp);
    FourBlocks(c.num, a.num, b.num, tmp, r);
    RecursiveMultiply(mem, |c.num|, |c.num| + |a.num|, 0, |c.num| + |a.num| + |b.num|, r, cutoff);
    TakeProduct(c, mem[..], r, Low(a.num, r), Low(b.num, r));
    c.num := mem[..|c.num|];
    c.length := 2 * r;
    c.Trim();
  }

  /** `cleanMult`: from the product of the low words of a and b to the whole product. For its second
      loop it gives a the length L and then its own length back: `low` is a in that state. */
  method CleanMult(a: BigInt, b: BigInt, c: BigInt, L: nat)
    requires a.Valid() && b.Valid() && c.Valid() && c.Trimmed() && c != a && c != b
    requires 0 < L <= a.length && L <= b.length && c.Mag() == Prod(Low(a.num, L), Low(b.num, L))
    modifies c
    ensures c.Valid() && c.Trimmed() && c.Mag() == Prod(a.Mag(), b.Mag())
  {
    hide At, Val, Pow, Shifted, Prod;
    ghost var a0, b0, A, B := Low(a.num, L), Low(b.num, L), a.Mag(), b.Mag();
    for i := L to a.length
      invariant c.Valid() && c.Trimmed() && c.Mag() == Prod(a0, b0) + Prod(B, Low(a.num, i)) - Prod(B, a0)
    {
      RowSum(B, a.num, i);
      NumtypeBigmult(b, a.num[i], c, i);
    }
    var low := new BigInt(0);
    low.num := a.num;
    low.length := L;
    for i := L to b.length
      invariant c.Valid() && c.Trimmed()
      invariant c.Mag() == Prod(B, A) - Prod(B, a0) + Prod(a0, Low(b.num, i))
      modifies c
    {
      RowSum(a0, b.num, i);
      NumtypeBigmult(low, b.num[i], c, i);
    }
    ProdZero(A, B);
    ProdZero(a0, B);
  }

  /** `fast_mult`. */
  method FastMult(a: BigInt, b: BigInt, c: BigInt, cutoff: nat)
    requires a.Valid() && b.Valid() && c.Valid() && a.Trimmed() && b.Trimmed() && c != a && c != b
    requires Halves(cutoff, 2)
    modifies c
    ensures c.Valid() && c.Trimmed() && c.Mag() == Prod(a.Mag(), b.Mag())
  {
    hide At, Val, Pow, Prod;
    var alen, blen := a.length, b.length;
    if alen <= cutoff || blen <= cutoff || alen < 2 * blen / 3 || blen < 2 * alen / 3 {
      Lbigmult(a, b, c);
      return;
    }
    c.Guarantee(alen + blen);
    if alen > blen {
      alen := blen;
    }
    var r := GetRecurseLen(alen);
    KaratsubaInto(a, b, c, r, cutoff);
    if a.length != r || b.length != r {
      CleanMult(a, b, c, r);
    }
  }

  /** The square of the low r words of a, into c. */
  method SquareInto(a: BigInt, c: BigInt, r: nat, cutoff: nat)
    requires a.Valid() && c.Valid() && c != a
    requires 0 < cutoff <= r && Halves(r, cutoff) && r <= a.length && 2 * r <= |c.num|
    modifies c
    ensures c.Valid() && c.Trimmed() && c.Mag() == Prod(Low(a.num, r), Low(a.num, r))
  {
    hide At, Val, Pow, Prod, Halves;
    var tmp := Zeros(2 * r);
    var mem := Lay(c.num + a.num + tmp);
    FourBlocks(c.num, a.num, tmp, [], r);
    assert c.num + a.num + tmp + [] == c.num + a.num + tmp;
    RecursiveSquare(mem, |c.num|, 0, |c.num| + |a.num|, r, cutoff);
    TakeProduct(c, mem[..], r, Low(a.num, r), Low(a.num, r));
    c.num := mem[..|c.num|];
    c.length := 2 * r;
    c.Trim();
  }

  /** `fast_square`; `cleanSquare` is `cleanMult` of a number with itself. */
  method FastSquare(a: BigInt, c: BigInt, cutoff: nat)
    requires a.Valid() && c.Valid() && c != a && Halves(cutoff, 2)
    modifies c
    ensures c.Valid() && c.Trimmed() && c.Mag() == Prod(a.Mag(), a.Mag())
  {
    hide At, Val, Pow, Prod;
    if a.length <= cutoff {
      Bigsquare(a, c);
      return;
    }
    c.Guarantee(2 * a.length);
    var r := GetRecurseLen(a.length);
    SquareInto(a, c, r, cutoff);
    if a.length != r {
      CleanMult(a, a, c, r);
    }
  }

  // The cutoffs of the usual build; one without assembler routines has 2 for both.
  const RECURSION_CUTOFF := 32
  const SQUARE_CUTOFF := 16

  lemma CutoffsHalve()
    ensures Halves(RECURSION_CUTOFF, 2) && Halves(SQUARE_CUTOFF, 2)
  {
    assert Halves(4, 2);
    assert Halves(8, 2);
    assert Halves(16, 2);
  }

  /** `bigMultiply` in the usual build. */
  method BigMultiply(a: BigInt, b: BigInt, c: BigInt)
    requires a.Valid() && b.Valid() && c.Valid() && a.Trimmed() && b.Trimmed() && c != a && c != b
    modifies c
    ensures c.Valid() && c.Trimmed() && c.Mag() == Prod(a.Mag(), b.Mag())
    ensures c.sign == if a.sign == b.sign then POS else NEG
  {
    hide At, Val, Pow, Prod, Halves;
    CutoffsHalve();
    BigMultiplyFrom(a, b, c, RECURSION_CUTOFF, SQUARE_CUTOFF);
  }

  /** `bigMultiply` with any pair of cutoffs. */
  method BigMultiplyFrom(a: BigInt, b: BigInt, c: BigInt, cutoff: nat, squareCutoff: nat)
    requires Halves(cutoff, 2) && Halves(squareCutoff, 2)
    requires a.Valid() && b.Valid() && c.Valid() && a.Trimmed() && b.Trimmed() && c != a && c != b
    modifies c
    ensures c.Valid() && c.Trimmed() && c.Mag() == Prod(a.Mag(), b.Mag())
    ensures c.sign == if a.sign == b.sign then POS else NEG
  {
    hide At, Val, Pow, Prod, Halves;
    if a == b {
      FastSquare(a, c, squareCutoff);
      c.sign := POS;
    } else {
      FastMult(a, b, c, cutoff);
      c.sign := if a.sign == b.sign then POS else NEG;
    }
  }
}
