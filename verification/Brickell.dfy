/**
 Powers of a fixed base, after `crypt/brickell_bigpow.c`: a table of the powers a^(16^i), their
 products by the value of the nibble at i, and the running product of running products.
 */
module Brickell {
  import opened Words
  import opened BigNum
  import opened BigShift
  import opened BigMult
  import opened Modulo
  import opened Arith
  import opened Montgomery
  import opened Powers

  /** The i-th entry stands for a^(16^i). */
  ghost predicate BaseTable(t: seq<BigInt>, a: int, v: nat, n: nat)
    requires v > 0
    reads t
  {
    forall i :: 0 <= i < |t| ==> Entry(t[i], Power(a, Two(4 * i)), v, n)
  }

  lemma BaseStart(b: BigInt, a: int, v: nat, n: nat)
    requires v > 0 && Entry(b, a, v, n)
    ensures BaseTable([b], a, v, n)
  {
    assert Two(0) == 1;
    PowerOne(a);
  }

  lemma BaseMore(t: seq<BigInt>, b: BigInt, a: int, v: nat, n: nat)
    requires v > 0 && BaseTable(t, a, v, n) && Entry(b, Power(a, Two(4 * |t|)), v, n)
    ensures BaseTable(t + [b], a, v, n)
  {}

  lemma BaseEntry(t: seq<BigInt>, i: nat, a: int, v: nat, n: nat)
    requires v > 0 && i < |t| && BaseTable(t, a, v, n)
    ensures Entry(t[i], Power(a, Two(4 * i)), v, n)
  {}

  lemma NextBase(a: int, i: nat)
    ensures Power(Power(a, Two(4 * i)), 16) == Power(a, Two(4 * (i + 1)))
  {
    hide Two;
    PowerMul(a, Two(4 * i), 16);
    TwoSum(4 * i, 4);
    TwoFour();
    assert 4 * (i + 1) == 4 * i + 4;
  }

  /** `g16_bigpow`. */
  method G16Bigpow(a: BigInt, N: BigInt, explength: nat, ghost v: nat, ghost n: nat) returns (t: seq<BigInt>)
    requires Modulus(N, v, n) && n >= 2 && a.Valid() && a.Trimmed() && a.sign == POS && a != N && explength > 0
    modifies N
    ensures Modulus(N, v, n) && |t| == explength && BaseTable(t, a.Mag(), v, n)
    ensures forall j :: 0 <= j < |t| ==> fresh(t[j])
  {
    hide At, Val, Pow, Stands, Prod, Entry, BaseTable, Power, Two;
    ghost var A := a.Mag();
    var c := ResForm(a, N, v, n);
    var n0p := MontSet(N, v, n);
    ghost var first := N.num[0];
    var t0 := NewEntry(c, A, v, n);
    t := [t0];
    BaseStart(t0, A, v, n);
    TwoZero();
    PowerOne(A);
    var d := new BigInt(0);
    var i := explength - 1;
    while i != 0
      invariant 0 <= i < explength && |t| == explength - i && Modulus(N, v, n) && N.num[0] == first
      invariant d.Valid() && fresh(c) && fresh(d) && c != d && c !in t && d !in t
      invariant Entry(c, Power(A, Two(4 * (|t| - 1))), v, n)
      invariant forall j :: 0 <= j < |t| ==> fresh(t[j])
      invariant BaseTable(t, A, v, n)
      modifies N`length, N`sign, c, d
    {
      FourSquares(c, d, N, n0p, Power(A, Two(4 * (|t| - 1))), v, n);
      NextBase(A, |t| - 1);
      var ti := NewEntry(c, Power(A, Two(4 * |t|)), v, n);
      BaseMore(t, ti, A, v, n);
      t := t + [ti];
      i := i - 1;
    }
  }

  lemma TwoZero()
    ensures Two(0) == 1
  {}

  /** A copy of an entry in a new number. */
  method NewEntry(a: BigInt, ghost c: int, ghost v: nat, ghost n: nat) returns (b: BigInt)
    requires v > 0 && Entry(a, c, v, n)
    ensures fresh(b) && Entry(b, c, v, n)
  {
    b := new BigInt(0);
    CopyEntry(a, b, c, v, n);
  }

  // ---- the sums of places ----

  /** The number in the k low nibbles. */
  function NibbleSum(s: seq<Word>, k: nat): nat
    requires k <= 8 * |s|
  {
    if k == 0 then 0 else NibbleSum(s, k - 1) + ProdNat(Nibble(s, k - 1), Two(4 * (k - 1)))
  }

  /** The weights of the places below k where the nibble is j. */
  function PlaceSum(s: seq<Word>, j: nat, k: nat): nat
    requires k <= 8 * |s|
  {
    if k == 0 then 0 else PlaceSum(s, j, k - 1) + if Nibble(s, k - 1) == j then Two(4 * (k - 1)) else 0
  }

  /** The weights of the places where the nibble is i or more. */
  function TailSum(s: seq<Word>, k: nat, i: nat): nat
    requires k <= 8 * |s| && i <= 16
    decreases 16 - i
  {
    if i == 16 then 0 else PlaceSum(s, i, k) + TailSum(s, k, i + 1)
  }

  function TailTails(s: seq<Word>, k: nat, i: nat): nat
    requires k <= 8 * |s| && i <= 16
    decreases 16 - i
  {
    if i == 16 then 0 else TailSum(s, k, i) + TailTails(s, k, i + 1)
  }

  /** One more place counts in every tail that begins at or below its nibble. */
  lemma {:induction false} TailNext(s: seq<Word>, k: nat, i: nat)
    requires 0 < k <= 8 * |s| && i <= 16
    ensures TailSum(s, k, i) == TailSum(s, k - 1, i) + if Nibble(s, k - 1) >= i then Two(4 * (k - 1)) else 0
    decreases 16 - i
  {
    hide Two, Nibble;
    NibbleSmall(s, k - 1);
    if i < 16 {
      TailNext(s, k, i + 1);
    }
  }

  lemma {:induction false} TailTailsNext(s: seq<Word>, k: nat, i: nat)
    requires 0 < k <= 8 * |s| && 1 <= i <= 16
    ensures var nib := Nibble(s, k - 1);
            TailTails(s, k, i) == TailTails(s, k - 1, i) + if nib >= i then Prod(nib - i + 1, Two(4 * (k - 1))) else 0
    decreases 16 - i
  {
    hide Two, Nibble, Prod, TailSum, TailTails, PlaceSum;
    NibbleSmall(s, k - 1);
    var nib, p := Nibble(s, k - 1), Two(4 * (k - 1));
    if i == 16 {
      TailsEnd(s, k);
      TailsEnd(s, k - 1);
    } else {
      TailTailsNext(s, k, i + 1);
      TailNext(s, k, i);
      OneMore(nib - i, p);
      TailsAt(s, k, i);
      TailsAt(s, k - 1, i);
    }
  }

  lemma TailsEnd(s: seq<Word>, k: nat)
    requires k <= 8 * |s|
    ensures TailTails(s, k, 16) == 0
  {}

  lemma OneMore(x: int, p: int)
    ensures Prod(x + 1, p) == Prod(x, p) + p && Prod(0, p) == 0
  {}

  /** The sum of all the tails is the number. */
  lemma {:induction false} TailsAreNumber(s: seq<Word>, k: nat)
    requires k <= 8 * |s|
    ensures TailTails(s, k, 1) == NibbleSum(s, k)
  {
    hide Two, Nibble, TailTails;
    if k == 0 {
      NoTails(s, 1);
    } else {
      TailsAreNumber(s, k - 1);
      TailTailsNext(s, k, 1);
      NibbleSmall(s, k - 1);
      OneMore(0, Two(4 * (k - 1)));
    }
  }

  lemma {:induction false} NoTails(s: seq<Word>, i: nat)
    requires i <= 16
    ensures TailSum(s, 0, i) == 0 && TailTails(s, 0, i) == 0
    decreases 16 - i
  {
    if i < 16 {
      NoTails(s, i + 1);
    }
  }

  /** The low nibbles of an exponent that has no others are the exponent. */
  lemma {:induction false} NibbleSumIs(s: seq<Word>, len: nat, k: nat)
    requires len <= |s| && k <= 8 * len
    ensures Low(s, len) == NibbleSum(s, k) + Two(4 * k) * Above(Low(s, len), k)
    ensures k == 8 * len ==> NibbleSum(s, k) == Low(s, len)
  {
    hide Two, Nibble, At, Val, Above, Low;
    AboveTop(s, len);
    if k == 0 {
      TwoZero();
    } else {
      NibbleSumIs(s, len, k - 1);
      NibbleIs(s, len, k - 1);
      TwoSum(4 * (k - 1), 4);
      TwoFour();
      PlaceStep(Two(4 * (k - 1)), Above(Low(s, len), k), Nibble(s, k - 1));
      assert 4 * k == 4 * (k - 1) + 4;
    }
  }

  /** The low nibbles are the exponent modulo the power of 16. */
  lemma LowNibbles(s: seq<Word>, len: nat, k: nat)
    requires len <= |s| && k <= 8 * len
    ensures NibbleSum(s, k) == Low(s, len) % Two(4 * k)
    ensures k == 8 * len ==> NibbleSum(s, k) == Low(s, len)
  {
    hide NibbleSum, Low, Two;
    NibbleSumIs(s, len, k);
    QuotientRest(Low(s, len), Two(4 * k));
  }

  lemma QuotientRest(x: nat, y: nat)
    requires y > 0
    ensures x == y * (x / y) + x % y
  {}

  lemma PlaceStep(p: int, a: int, nib: int)
    ensures p * (16 * a + nib) == nib * p + (p * 16) * a
  {}

  // ---- the power ----

  /** The product, for one nibble value, of the base powers at its places. */
  method CoeffEntry(t: seq<BigInt>, exp: BigInt, j: nat, msOne: BigInt, N: BigInt, n0p: Word, ghost a: int,
                    ghost v: nat, ghost n: nat)
    returns (b: BigInt)
    requires Modulus(N, v, n) && Prod(N.num[0], n0p) % W == W - 1 && N !in t && msOne != N && exp != N
    requires exp.Valid() && |t| <= 8 * exp.length && BaseTable(t, a, v, n) && Entry(msOne, 1, v, n)
    modifies N`length, N`sign
    ensures Modulus(N, v, n) && fresh(b) && Entry(b, Power(a, PlaceSum(exp.num, j, |t|)), v, n)
  {
    hide At, Val, Pow, Stands, Prod, BaseTable, Power, Two, Nibble;
    ghost var s := exp.num;
    var tmp1 := NewEntry(msOne, 1, v, n);
    var tmp2 := new BigInt(0);
    PowerOne(a);
    ghost var rest: nat := 0;
    var i := |t|;
    while i > 0
      invariant 0 <= i <= |t| && Modulus(N, v, n) && tmp2.Valid() && rest + PlaceSum(s, j, i) == PlaceSum(s, j, |t|)
      invariant Entry(tmp1, Power(a, rest), v, n)
      modifies N`length, N`sign, tmp1, tmp2
    {
      i := i - 1;
      if Nibble(exp.num, i) == j {
        BaseEntry(t, i, a, v, n);
        Times(t[i], tmp1, tmp2, N, n0p, Power(a, Two(4 * i)), Power(a, rest), v, n);
        PowerProduct(a, Two(4 * i), rest);
        rest := Two(4 * i) + rest;
        CopyEntry(tmp2, tmp1, Power(a, rest), v, n);
      }
    }
    b := NewEntry(tmp1, Power(a, rest), v, n);
  }

  lemma PowerProduct(a: int, d: nat, e: nat)
    ensures Prod(Power(a, d), Power(a, e)) == Power(a, d + e)
  {
    hide Power;
    PowerSum(a, d, e);
  }

  /** The entry for nibble value j stands for a to the weights of its places. */
  ghost predicate CoeffTable(C: seq<BigInt>, s: seq<Word>, k: nat, a: int, v: nat, n: nat)
    requires v > 0 && k <= 8 * |s|
    reads C
  {
    forall j :: 1 <= j < |C| ==> Entry(C[j], Power(a, PlaceSum(s, j, k)), v, n)
  }

  lemma CoeffMore(C: seq<BigInt>, b: BigInt, s: seq<Word>, k: nat, a: int, v: nat, n: nat)
    requires v > 0 && k <= 8 * |s| && CoeffTable(C, s, k, a, v, n) && Entry(b, Power(a, PlaceSum(s, |C|, k)), v, n)
    ensures CoeffTable(C + [b], s, k, a, v, n)
  {}

  lemma CoeffAt(C: seq<BigInt>, j: nat, s: seq<Word>, k: nat, a: int, v: nat, n: nat)
    requires v > 0 && k <= 8 * |s| && 1 <= j < |C| && CoeffTable(C, s, k, a, v, n)
    ensures Entry(C[j], Power(a, PlaceSum(s, j, k)), v, n)
  {}

  /** `buildCoeffTable`. */
  method BuildCoeffTable(exp: BigInt, N: BigInt, n0p: Word, t: seq<BigInt>, ghost a: int, ghost v: nat, ghost n: nat)
    returns (C: seq<BigInt>)
    requires Modulus(N, v, n) && n >= 2 && Prod(N.num[0], n0p) % W == W - 1 && N !in t && exp != N
    requires exp.Valid() && |t| <= 8 * exp.length && BaseTable(t, a, v, n)
    modifies N
    ensures Modulus(N, v, n) && N.num[0] == old(N.num[0]) && |C| == 16 && CoeffTable(C, exp.num, |t|, a, v, n)
    ensures forall j :: 0 <= j < |C| ==> fresh(C[j])
  {
    hide At, Val, Pow, Stands, Prod, Entry, BaseTable, CoeffTable, Power, Two, PlaceSum;
    ghost var s, first := exp.num, N.num[0];
    var one := new BigInt(1);
    var msOne := ResForm(one, N, v, n);
    var c0 := new BigInt(1);
    C := [c0];
    CoeffNone(C, s, |t|, a, v, n);
    var j := 1;
    while j < 16
      invariant 1 <= j <= 16 && |C| == j && Modulus(N, v, n) && N.num[0] == first
      invariant forall i :: 0 <= i < |C| ==> fresh(C[i])
      invariant Entry(msOne, 1, v, n) && fresh(msOne) && CoeffTable(C, s, |t|, a, v, n) && BaseTable(t, a, v, n)
      modifies N`length, N`sign
    {
      var b := CoeffEntry(t, exp, j, msOne, N, n0p, a, v, n);
      CoeffMore(C, b, s, |t|, a, v, n);
      C := C + [b];
      j := j + 1;
    }
  }

  lemma CoeffNone(C: seq<BigInt>, s: seq<Word>, k: nat, a: int, v: nat, n: nat)
    requires v > 0 && k <= 8 * |s| && |C| == 1
    ensures CoeffTable(C, s, k, a, v, n)
  {}

  /** `brickell_bigpow`: the power whose exponent is in the nibbles the table covers: all of it, if
      the table has an entry for each of them. */
  method BrickellBigpow(t: seq<BigInt>, exp: BigInt, N: BigInt, result: BigInt, ghost a: int, ghost v: nat,
                        ghost n: nat)
    requires Modulus(N, v, n) && n >= 2 && N !in t && exp != N && result != N && result != exp && result !in t
    requires result.Valid()
    requires exp.Valid() && |t| <= 8 * exp.length && BaseTable(t, a, v, n)
    modifies N, result
    ensures Modulus(N, v, n) && result.Valid() && result.Trimmed() && result.sign == POS && result.Mag() <= v
    ensures Congruent(result.Mag(), Power(a, exp.Mag() % Two(4 * |t|)), v)
    ensures |t| == 8 * exp.length ==> exp.Mag() % Two(4 * |t|) == exp.Mag()
  {
    hide At, Val, Pow, Stands, Prod, BaseTable, CoeffTable, Power, Two, PlaceSum, Congruent, NibbleSum, Nibble;
    ghost var s, k := exp.num, |t|;
    var n0p := MontSet(N, v, n);
    var C := BuildCoeffTable(exp, N, n0p, t, a, v, n);
    CoeffAt(C, 15, s, k, a, v, n);
    var d := NewEntry(C[15], Power(a, PlaceSum(s, 15, k)), v, n);
    TailsAt(s, k, 15);
    CopyEntry(d, result, Power(a, TailSum(s, k, 15)), v, n);
    RunningProducts(C, d, N, result, n0p, s, k, a, v, n);
    TailsAreNumber(s, k);
    LowNibbles(s, exp.length, k);
    LeaveMontgomery(result, N, n0p, Power(a, NibbleSum(s, k)), v, n);
  }

  /** The two together, with one table entry for every nibble of the exponent. */
  method TablePower(b: BigInt, exp: BigInt, N: BigInt, result: BigInt, ghost v: nat, ghost n: nat)
    requires Modulus(N, v, n) && n >= 2 && b.Valid() && b.Trimmed() && b.sign == POS && exp.Valid()
    requires b != N && exp != N && result != N && result != exp && result.Valid()
    modifies N, result
    ensures Modulus(N, v, n) && result.Valid() && result.Trimmed() && result.sign == POS && result.Mag() <= v
    ensures Congruent(result.Mag(), Power(old(b.Mag()), exp.Mag()), v)
  {
    hide At, Val, Pow, Stands, Prod, Entry, BaseTable, Power, Two, Congruent;
    var t := G16Bigpow(b, N, 8 * exp.length, v, n);
    BrickellBigpow(t, exp, N, result, old(b.Mag()), v, n);
  }

  /** The loop of `brickell_bigpow`: d runs through the products of the tail, result through theirs. */
  method RunningProducts(C: seq<BigInt>, d: BigInt, N: BigInt, result: BigInt, n0p: Word, ghost s: seq<Word>,
                         ghost k: nat, ghost a: int, ghost v: nat, ghost n: nat)
    requires Modulus(N, v, n) && Prod(N.num[0], n0p) % W == W - 1 && k <= 8 * |s| && |C| == 16
    requires CoeffTable(C, s, k, a, v, n) && d !in C && result !in C && N !in C && d != N && result != N && d != result
    requires Entry(d, Power(a, TailSum(s, k, 15)), v, n) && Entry(result, Power(a, TailTails(s, k, 15)), v, n)
    modifies N`length, N`sign, d, result
    ensures Modulus(N, v, n) && Entry(result, Power(a, TailTails(s, k, 1)), v, n)
  {
    hide At, Val, Pow, Stands, Prod, CoeffTable, Power, Two, PlaceSum, TailSum, TailTails, Congruent, Nibble;
    var tmp := new BigInt(0);
    var i := 14;
    while i > 0
      invariant 0 <= i <= 14 && Modulus(N, v, n) && tmp.Valid()
      invariant Entry(d, Power(a, TailSum(s, k, i + 1)), v, n) && Entry(result, Power(a, TailTails(s, k, i + 1)), v, n)
      modifies N`length, N`sign, d, tmp, result
    {
      CoeffAt(C, i, s, k, a, v, n);
      TailsAt(s, k, i);
      TimesInto(C[i], d, tmp, d, N, n0p, a, PlaceSum(s, i, k), TailSum(s, k, i + 1), v, n);
      TimesInto(result, d, tmp, result, N, n0p, a, TailTails(s, k, i + 1), TailSum(s, k, i), v, n);
      i := i - 1;
    }
  }

  lemma TailsAt(s: seq<Word>, k: nat, i: nat)
    requires k <= 8 * |s| && i < 16
    ensures TailSum(s, k, i) == PlaceSum(s, i, k) + TailSum(s, k, i + 1)
    ensures TailTails(s, k, i) == TailTails(s, k, i + 1) + TailSum(s, k, i)
    ensures i == 15 ==> TailSum(s, k, i) == PlaceSum(s, i, k) == TailTails(s, k, i)
  {
    hide PlaceSum;
    assert TailSum(s, k, 16) == 0 && TailTails(s, k, 16) == 0;
  }

  /** into := x * y, by way of tmp. */
  method TimesInto(x: BigInt, y: BigInt, tmp: BigInt, into: BigInt, N: BigInt, n0p: Word, ghost a: int, ghost d: nat,
                   ghost e: nat, ghost v: nat, ghost n: nat)
    requires Modulus(N, v, n) && Prod(N.num[0], n0p) % W == W - 1 && tmp.Valid() && into.Valid()
    requires x != N && y != N && tmp != N && into != N && tmp != x && tmp != y && tmp != into
    requires Entry(x, Power(a, d), v, n) && Entry(y, Power(a, e), v, n)
    modifies N`length, N`sign, tmp, into
    ensures Modulus(N, v, n) && tmp.Valid() && Entry(into, Power(a, d + e), v, n)
  {
    hide At, Val, Pow, Stands, Prod, Power;
    Times(x, y, tmp, N, n0p, Power(a, d), Power(a, e), v, n);
    PowerProduct(a, d, e);
    CopyEntry(tmp, into, Power(a, d + e), v, n);
  }
}
