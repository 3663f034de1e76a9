/**
 The IDEA cipher of `crypt/idea.c`: multiplication modulo 65537 on 16-bit halves, where 0 stands for
 65536, and why decryption with the inverted key gives every text back.
 */
module Idea {
  import opened Bits
  import opened Octets
  import opened Multiples
  import opened Arith
  import opened Fermat
  import opened FermatPrime

  type Half = x: int | 0 <= x < 65536

  const MODA := 0x10000
  const MODM := F

  /** The number a half stands for in a multiplication. */
  function Value(x: Half): (v: int)
    ensures 1 <= v <= 65536
  {
    if x == 0 then MODA else x
  }

  /** A number cut to 16 bits. */
  function Short(n: int): Half { n % 65536 }

  /** The half that adds up to nothing with x. */
  function Negated(x: Half): Half {
    if x == 0 then 0 else 65536 - x
  }

  /** `mod`. */
  function Mod(x: Half, y: Half): Half {
    if x == 0 then Short(1 - y)
    else if y == 0 then Short(1 - x)
    else
      var z := x * y;
      var q, r := z / 65536, z % 65536;
      Short(r - q + if r < q then 1 else 0)
  }

  // ---- multiplication ----

  /** `mod` multiplies modulo 65537. */
  lemma ModIsProduct(x: Half, y: Half)
    ensures Congruent(Value(Mod(x, y)), Value(x) * Value(y), MODM)
  {
    hide Congruent;
    if x == 0 {
      MultipleIsCongruent(Value(Mod(x, y)), Value(x) * Value(y), MODM, 1 - Value(y));
    } else if y == 0 {
      MultipleIsCongruent(Value(Mod(x, y)), Value(x) * Value(y), MODM, 1 - Value(x));
    } else {
      var q, r := x * y / 65536, x * y % 65536;
      HighHalf(x, y);
      NoZero(x, y, q);
      assert 65536 * q + r != MODM * q;
      Folded(q, r);
      MultipleIsCongruent(Value(Mod(x, y)), x * y, MODM, if r < q then 1 - q else -q);
    }
  }

  lemma HighHalf(x: Half, y: Half)
    ensures 0 <= x * y / 65536 < 65536
  {
    MulBoth(x, 65535, y, 65535);
  }

  lemma MulBoth(a: nat, b: nat, c: nat, d: nat)
    requires a <= b && c <= d
    ensures 0 <= a * c <= b * d
  {}

  /** 65536 q + r and r - q differ by a multiple of 65537. */
  lemma Folded(q: nat, r: nat)
    requires q < 65536 && r < 65536 && q != r
    ensures var v := Short(r - q + if r < q then 1 else 0);
            var h: int := q;
            Value(v) == 65536 * h + r + MODM * (if r < q then 1 - h else -h)
  {}

  /** The product of two halves is no multiple of the modulus. */
  lemma NoZero(a: nat, b: nat, q: int)
    requires 0 < a < MODM && 0 < b < MODM
    ensures a * b != MODM * q
  {
    if a * b == MODM * q {
      ModulusIsPrime();
      MultipleIsCongruent(a * b, 0, MODM, q);
      Euclid(MODM, a, b);
      CongruentUnique(b, 0, MODM);
      assert false;
    }
  }

  lemma ValueOnce(x: Half, y: Half)
    requires Value(x) == Value(y)
    ensures x == y
  {}

  ghost predicate Inverse(k: Half, k': Half) {
    Congruent(Value(k) * Value(k'), 1, MODM)
  }

  /** Multiplying by a half and then by its inverse gives back every half. */
  lemma ModUndone(x: Half, k: Half, k': Half)
    requires Inverse(k, k')
    ensures Mod(Mod(x, k), k') == x
  {
    hide Mod, Value, Congruent;
    var a, b, c := Value(x), Value(k), Value(k');
    var y := Mod(x, k);
    ModIsProduct(x, k);
    ModIsProduct(y, k');
    CongruentMod(c, MODM);
    CongruentMod(a, MODM);
    CongruentMul(Value(y), a * b, c, c, MODM);
    CongruentMul(a, a, b * c, 1, MODM);
    assert a * (b * c) == (a * b) * c;
    CongruentTrans(Value(Mod(y, k')), Value(y) * c, (a * b) * c, MODM);
    CongruentTrans(Value(Mod(y, k')), (a * b) * c, a * 1, MODM);
    CongruentUnique(Value(Mod(y, k')), a, MODM);
    ValueOnce(Mod(y, k'), x);
  }

  lemma InverseBack(k: Half, k': Half)
    requires Inverse(k, k')
    ensures Inverse(k', k)
  {
    hide Congruent;
    assert Value(k) * Value(k') == Value(k') * Value(k);
  }

  /** `inv`, by the extended Euclidean algorithm; the coefficients stay within the modulus. */
  method Inv(x: Half) returns (v: Half)
    ensures Inverse(x, v)
  {
    hide Congruent, Bound;
    if x <= 1 {
      SelfInverse(x);
      return x;
    }
    var r0: int, r1: int, v0: int, v1: int := MODM, x, 0, 1;
    EuclidStart(x);
    while r1 != 0
      invariant 0 <= r1 < r0 <= MODM && r1 <= x && Bound(r0, r1, v0, v1)
      invariant Congruent(v0 * x, r0, MODM) && Congruent(v1 * x, r1, MODM)
      decreases r1
    {
      var q := r0 / r1;
      EuclidStep(x, r0, r1, v0, v1, q);
      r0, r1, v0, v1 := r1, r0 - q * r1, v1, v0 - q * v1;
    }
    EuclidEnd(x, r0, v0, v1);
    if v0 < 0 {
      v0 := v0 + MODM;
    }
    v := Short(v0);
    assert Value(v) == v0;
  }

  lemma SelfInverse(x: Half)
    requires x == 0 || x == 1
    ensures Inverse(x, x)
  {
    hide Congruent;
    if x == 0 {
      MultipleIsCongruent(65536 * 65536, 1, MODM, 65535);
    } else {
      CongruentMod(1, MODM);
    }
  }

  /** The coefficients have different signs, grow, and, weighted with the remainders, sum to the modulus. */
  predicate Bound(r0: int, r1: int, v0: int, v1: int) {
    || (-v1 <= v0 <= 0 < v1 && v1 * r0 - v0 * r1 == MODM)
    || (v1 < 0 <= v0 <= -v1 && v0 * r1 - v1 * r0 == MODM)
  }

  lemma EuclidStart(a: nat)
    ensures Bound(MODM, a, 0, 1) && Congruent(0 * a, MODM, MODM) && Congruent(1 * a, a, MODM)
  {
    MultipleIsCongruent(0 * a, MODM, MODM, -1);
    CongruentMod(a, MODM);
  }

  lemma EuclidStep(a: nat, r0: int, r1: int, v0: int, v1: int, q: int)
    requires 0 < r1 < r0 && q == r0 / r1 && Bound(r0, r1, v0, v1)
    requires Congruent(v0 * a, r0, MODM) && Congruent(v1 * a, r1, MODM)
    ensures 0 <= r0 - q * r1 < r1 && Bound(r1, r0 - q * r1, v1, v0 - q * v1)
    ensures Congruent((v0 - q * v1) * a, r0 - q * r1, MODM)
  {
    QuotientPositive(r0, r1, q);
    Weighted(r0, r1, v0, v1, q);
    CongruentMod(q, MODM);
    CongruentMul(q, q, v1 * a, r1, MODM);
    CongruentAdd(v0 * a, r0, q * (v1 * a), q * r1, MODM);
    assert (v0 - q * v1) * a == v0 * a - q * (v1 * a) by { Pulled(v0, q, v1, a); }
  }

  lemma QuotientPositive(r0: int, r1: int, q: int)
    requires 0 < r1 < r0 && q == r0 / r1
    ensures q >= 1 && 0 <= r0 - q * r1 < r1
  {}

  lemma Pulled(x: int, q: int, y: int, a: int)
    ensures (x - q * y) * a == x * a - q * (y * a)
  {}

  lemma Weighted(r0: int, r1: int, v0: int, v1: int, q: int)
    requires q >= 1 && Bound(r0, r1, v0, v1)
    ensures Bound(r1, r0 - q * r1, v1, v0 - q * v1)
  {
    Signs(v0, v1, q);
    assert (v0 - q * v1) * r1 == v0 * r1 - q * (v1 * r1) by { Pulled(v0, q, v1, r1); }
    assert v1 * (r0 - q * r1) == v1 * r0 - q * (v1 * r1) by { Pulled(r0, q, r1, v1); }
  }

  lemma Signs(v0: int, v1: int, q: int)
    requires q >= 1
    ensures v0 <= 0 < v1 ==> v0 - q * v1 <= -v1
    ensures v1 < 0 <= v0 ==> v0 - q * v1 >= -v1
  {}

  /** At the end the remainder is one, for it divides the modulus, and the coefficient is the inverse. */
  lemma EuclidEnd(a: nat, r0: int, v0: int, v1: int)
    requires 1 < a < MODM && 0 < r0 <= MODM && Bound(r0, 0, v0, v1)
    requires Congruent(v0 * a, r0, MODM) && Congruent(v1 * a, 0, MODM)
    ensures r0 == 1 && -MODM < v0 < MODM && v0 != 0
    ensures Congruent(a * (if v0 < 0 then v0 + MODM else v0), 1, MODM)
  {
    hide Congruent;
    ModulusIsPrime();
    var w := if v1 < 0 then -v1 else v1;
    assert w * r0 == MODM && (v1 == w || v1 == -w);
    FactorOfPrime(w, r0);
    if r0 == MODM {
      NotZero(a, v1);
    }
    OnlyOne(a, v0);
    var s := if v0 < 0 then v0 + MODM else v0;
    MultipleIsCongruent(a * s, v0 * a, MODM, if v0 < 0 then a else 0);
    CongruentTrans(a * s, v0 * a, 1, MODM);
  }

  lemma FactorOfPrime(w: nat, r: nat)
    requires Prime(MODM) && w * r == MODM && r > 0
    ensures (r == 1 && w == MODM) || (r == MODM && w == 1)
  {
    ModZero(MODM, r, w);
    ScaleBound(r, w);
  }

  lemma NotZero(a: nat, v: int)
    requires 1 < a < MODM && (v == 1 || v == -1)
    ensures !Congruent(v * a, 0, MODM)
  {}

  lemma OnlyOne(a: nat, v: int)
    requires 1 < a < MODM && -MODM <= v <= MODM && Congruent(v * a, 1, MODM)
    ensures v != 0 && v != MODM && v != -MODM
  {
    MultipleIsCongruent(MODM * a, 0, MODM, a);
    var b: int := a;
    MultipleIsCongruent(-MODM * b, 0, MODM, -b);
  }

  // ---- the operations on halves ----

  function Op1(x: Half, y: Half): Half {
    SixteenTwos();
    XorBelow(x, y, 16);
    Xor(x, y)
  }

  function Op2(x: Half, y: Half): Half { Short(x + y) }

  // ---- the rounds ----

  datatype Quad = Quad(x0: Half, x1: Half, x2: Half, x3: Half)

  /** A keyed step: two products, and two sums that change places. */
  function Keyed(k: seq<Half>, x: Quad): Quad
    requires |k| == 4
  {
    Quad(Mod(x.x0, k[0]), Op2(x.x2, k[2]), Op2(x.x1, k[1]), Mod(x.x3, k[3]))
  }

  /** A mixing step: what it adds depends only on how the halves differ. */
  function Mixed(k: seq<Half>, x: Quad): Quad
    requires |k| == 2
  {
    var t := Mod(k[0], Op1(x.x0, x.x1));
    var yout := Mod(Op2(t, Op1(x.x2, x.x3)), k[1]);
    var zout := Op2(t, yout);
    Quad(Op1(x.x0, yout), Op1(x.x1, yout), Op1(x.x2, zout), Op1(x.x3, zout))
  }

  /** Step i of the cipher. */
  function Step(k: seq<Half>, i: nat, x: Quad): Quad
    requires |k| == 52 && i < 17
  {
    if i % 2 == 0 then Keyed(k[3 * i..3 * i + 4], x) else Mixed(k[3 * i + 1..3 * i + 3], x)
  }

  function Steps(k: seq<Half>, n: nat, x: Quad): Quad
    requires |k| == 52 && n <= 17
  {
    if n == 0 then x else Step(k, n - 1, Steps(k, n - 1, x))
  }

  lemma MixedTwice(k: seq<Half>, x: Quad)
    requires |k| == 2
    ensures Mixed(k, Mixed(k, x)) == x
  {
    hide Mod, Xor, Op2;
    var t := Mod(k[0], Op1(x.x0, x.x1));
    var yout := Mod(Op2(t, Op1(x.x2, x.x3)), k[1]);
    var zout := Op2(t, yout);
    XorTwice(x.x0, x.x1, yout);
    XorTwice(x.x1, x.x0, yout);
    XorTwice(x.x2, x.x3, zout);
    XorTwice(x.x3, x.x2, zout);
  }

  /** Two keys for a keyed step: the products' parts inverse, the sums' parts opposite and exchanged. */
  ghost predicate Opposed(k: seq<Half>, k': seq<Half>) {
    && |k| == |k'| == 4
    && Inverse(k[0], k'[0]) && Inverse(k[3], k'[3])
    && k'[1] == Negated(k[2]) && k'[2] == Negated(k[1])
  }

  lemma KeyedUndone(k: seq<Half>, k': seq<Half>, x: Quad)
    requires Opposed(k, k')
    ensures Keyed(k', Keyed(k, x)) == x
  {
    hide Mod, Inverse, Op2, Negated;
    ModUndone(x.x0, k[0], k'[0]);
    ModUndone(x.x3, k[3], k'[3]);
    SumUndone(x.x1, k[1]);
    SumUndone(x.x2, k[2]);
  }

  lemma SumUndone(x: Half, k: Half)
    ensures Op2(Op2(x, k), Negated(k)) == x
  {}

  lemma OpposedBack(k: seq<Half>, k': seq<Half>)
    requires Opposed(k, k')
    ensures Opposed(k', k)
  {
    hide Inverse;
    InverseBack(k[0], k'[0]);
    InverseBack(k[3], k'[3]);
  }

  /** The decryption key: step by step, in reverse, the opposed keys and the same mixing keys. */
  ghost predicate Undoes(k: seq<Half>, k': seq<Half>) {
    && |k| == |k'| == 52
    && (forall i :: 0 <= i < 17 ==> UndoesAt(k, k', i))
  }

  ghost predicate UndoesAt(k: seq<Half>, k': seq<Half>, i: int)
    requires |k| == |k'| == 52 && 0 <= i < 17
  {
    if i % 2 == 0 then Opposed(k[3 * (16 - i)..3 * (16 - i) + 4], k'[3 * i..3 * i + 4])
    else k'[3 * i + 1..3 * i + 3] == k[3 * (16 - i) + 1..3 * (16 - i) + 3]
  }

  lemma UndoesBack(k: seq<Half>, k': seq<Half>)
    requires Undoes(k, k')
    ensures Undoes(k', k)
  {
    hide Opposed;
    forall i | 0 <= i < 17
      ensures UndoesAt(k', k, i)
    {
      assert UndoesAt(k, k', 16 - i);
      if i % 2 == 0 {
        OpposedBack(k[3 * i..3 * i + 4], k'[3 * (16 - i)..3 * (16 - i) + 4]);
      }
    }
  }

  /** After n steps of decryption, the last n steps of encryption are undone. */
  lemma {:induction false} StepsUndone(k: seq<Half>, k': seq<Half>, n: nat, x: Quad)
    requires Undoes(k, k') && n <= 17
    ensures Steps(k', n, Steps(k, 17, x)) == Steps(k, 17 - n, x)
  {
    hide Keyed, Mixed, Opposed;
    if n > 0 {
      StepsUndone(k, k', n - 1, x);
      assert UndoesAt(k, k', n - 1);
      var y := Steps(k, 17 - n, x);
      assert Steps(k, 18 - n, x) == Step(k, 17 - n, y);
      if n % 2 == 1 {
        KeyedUndone(k[3 * (17 - n)..3 * (17 - n) + 4], k'[3 * (n - 1)..3 * (n - 1) + 4], y);
      } else {
        MixedTwice(k[3 * (17 - n) + 1..3 * (17 - n) + 3], y);
      }
    }
  }

  // ---- texts ----

  function BigEnd(a: Byte, b: Byte): Half {
    var high: int := a;
    256 * high + b
  }

  /** The four big-endian halves of a text. */
  function Pack(t: seq<Byte>): Quad
    requires |t| == 8
  {
    Quad(BigEnd(t[0], t[1]), BigEnd(t[2], t[3]), BigEnd(t[4], t[5]), BigEnd(t[6], t[7]))
  }

  function Unpack(x: Quad): (t: seq<Byte>)
    ensures |t| == 8
  {
    [x.x0 / 256, x.x0 % 256, x.x1 / 256, x.x1 % 256, x.x2 / 256, x.x2 % 256, x.x3 / 256, x.x3 % 256]
  }

  lemma PackUnpack(t: seq<Byte>, x: Quad)
    requires |t| == 8
    ensures Unpack(Pack(t)) == t && Pack(Unpack(x)) == x
  {}

  function Cipher(k: seq<Half>, t: seq<Byte>): (c: seq<Byte>)
    requires |k| == 52 && |t| == 8
    ensures |c| == 8
  {
    Unpack(Steps(k, 17, Pack(t)))
  }

  /** Either key undoes the other, on every text. */
  lemma CipherUndone(k: seq<Half>, k': seq<Half>, t: seq<Byte>)
    requires Undoes(k, k') && |t| == 8
    ensures Cipher(k', Cipher(k, t)) == t && Cipher(k, Cipher(k', t)) == t
  {
    hide Steps, UndoesAt, Pack, Unpack;
    UndoesBack(k, k');
    StepsUndone(k, k', 17, Pack(t));
    StepsUndone(k', k, 17, Pack(t));
    StepsNone(k, Pack(t));
    StepsNone(k', Pack(t));
    PackUnpack(t, Steps(k, 17, Pack(t)));
    PackUnpack(t, Steps(k', 17, Pack(t)));
  }

  lemma StepsNone(k: seq<Half>, x: Quad)
    requires |k| == 52
    ensures Steps(k, 0, x) == x
  {}

  // ---- the code ----

  const KEYLEN := 52

  /** `idea_key_setup_decrypt`, into the second half of the key. */
  method IdeaKeySetupDecrypt(ek: array<Half>)
    requires ek.Length == 2 * KEYLEN
    modifies ek
    ensures ek[..KEYLEN] == old(ek[..KEYLEN])
    ensures Undoes(ek[..KEYLEN], ek[KEYLEN..])
  {
    hide Inverse, SetAt, Negated;
    ghost var k := ek[..KEYLEN];
    var i := 0;
    while i < 54
      invariant 0 <= i <= 54 && i % 6 == 0 && ek[..KEYLEN] == k
      invariant forall j :: 0 <= j < 17 && 3 * j < i ==> SetAt(k, ek[KEYLEN..], j)
    {
      ghost var before := ek[KEYLEN..];
      SetSix(ek, i);
      SixSet(ek[..], i);
      assert ek[..KEYLEN] == k && ek[..][..KEYLEN] == k && ek[..][KEYLEN..] == ek[KEYLEN..];
      forall j | 0 <= j < 17 && 3 * j < i + 6
        ensures SetAt(k, ek[KEYLEN..], j)
      {
        if 3 * j < i {
          SetFrame(k, before, ek[KEYLEN..], i, j);
        }
      }
      i := i + 6;
    }
    forall j | 0 <= j < 17
      ensures UndoesAt(k, ek[KEYLEN..], j)
    {
      SetUndoes(k, ek[KEYLEN..], j);
    }
  }

  /** One round of the loop: a keyed step and, but for the last, a mixing step. */
  method SetSix(ek: array<Half>, i: nat)
    requires ek.Length == 2 * KEYLEN && i < 54 && i % 6 == 0
    modifies ek
    ensures forall c :: 0 <= c < KEYLEN + i ==> ek[c] == old(ek[c])
    ensures Inverse(ek[48 - i], ek[KEYLEN + i]) && Inverse(ek[51 - i], ek[KEYLEN + i + 3])
    ensures ek[KEYLEN + i + 1] == Negated(ek[50 - i]) && ek[KEYLEN + i + 2] == Negated(ek[49 - i])
    ensures i < 48 ==> ek[KEYLEN + i + 4] == ek[46 - i] && ek[KEYLEN + i + 5] == ek[47 - i]
  {
    hide Inverse, Negated;
    var a := Inv(ek[48 - i]);
    var d := Inv(ek[51 - i]);
    ek[KEYLEN + i] := a;
    ek[KEYLEN + i + 1] := Negated(ek[50 - i]);
    ek[KEYLEN + i + 2] := Negated(ek[49 - i]);
    ek[KEYLEN + i + 3] := d;
    if i < 48 {
      ek[KEYLEN + i + 4] := ek[46 - i];
      ek[KEYLEN + i + 5] := ek[47 - i];
    }
  }

  lemma SixSet(ek: seq<Half>, i: nat)
    requires |ek| == 2 * KEYLEN && i < 54 && i % 6 == 0
    requires Inverse(ek[48 - i], ek[KEYLEN + i]) && Inverse(ek[51 - i], ek[KEYLEN + i + 3])
    requires ek[KEYLEN + i + 1] == Negated(ek[50 - i]) && ek[KEYLEN + i + 2] == Negated(ek[49 - i])
    requires i < 48 ==> ek[KEYLEN + i + 4] == ek[46 - i] && ek[KEYLEN + i + 5] == ek[47 - i]
    ensures SetAt(ek[..KEYLEN], ek[KEYLEN..], i / 3)
    ensures i < 48 ==> SetAt(ek[..KEYLEN], ek[KEYLEN..], i / 3 + 1)
  {
    hide Inverse, Negated;
  }

  lemma SetFrame(k: seq<Half>, k1: seq<Half>, k2: seq<Half>, i: nat, j: nat)
    requires |k| == |k1| == |k2| == 52 && i % 6 == 0 && 3 * j < i <= 48
    requires forall c :: 0 <= c < i ==> k1[c] == k2[c]
    requires SetAt(k, k1, j)
    ensures SetAt(k, k2, j)
  {
    hide Inverse;
  }

  lemma SetUndoes(k: seq<Half>, k': seq<Half>, j: nat)
    requires |k| == |k'| == 52 && j < 17 && SetAt(k, k', j)
    ensures UndoesAt(k, k', j)
  {
    hide Inverse;
  }

  /** The key words of step j of decryption are in place. */
  ghost predicate SetAt(k: seq<Half>, k': seq<Half>, j: nat)
    requires |k| == |k'| == 52 && j < 17
  {
    var b, c := 3 * (16 - j), 3 * j;
    if j % 2 == 0 then
      && Inverse(k[b], k'[c]) && Inverse(k[b + 3], k'[c + 3])
      && k'[c + 1] == Negated(k[b + 2]) && k'[c + 2] == Negated(k[b + 1])
    else k'[c + 1] == k[b + 1] && k'[c + 2] == k[b + 2]
  }

  /** `idea_cipher`. */
  method IdeaCipher(key: array<Half>, text: array<Byte>, decrypting: bool)
    requires key.Length == 2 * KEYLEN && text.Length == 8
    modifies text
    ensures text[..] == Cipher(if decrypting then key[KEYLEN..] else key[..KEYLEN], old(text[..]))
  {
    hide Steps, Step, Pack, Unpack, BigEnd;
    var off := if decrypting then KEYLEN else 0;
    ghost var k := if decrypting then key[KEYLEN..] else key[..KEYLEN];
    var x := new Half[4];
    for i := 0 to 4
      invariant text[..] == old(text[..])
      invariant forall j :: 0 <= j < i ==> x[j] == BigEnd(text[2 * j], text[2 * j + 1])
    {
      x[i] := BigEnd(text[2 * i], text[2 * i + 1]);
    }
    ghost var q := Pack(old(text[..]));
    Packed(text[..], x[..]);
    assert k == key[off..off + KEYLEN];
    StepsNone(k, q);
    for i := 0 to 17
      invariant Quad(x[0], x[1], x[2], x[3]) == Steps(k, i, q)
    {
      StepsNext(k, i, q);
      CipherStep(key, off, i, x);
    }
    for i := 0 to 4
      invariant Quad(x[0], x[1], x[2], x[3]) == Steps(k, 17, q)
      invariant forall j :: 0 <= j < i ==> text[2 * j] == x[j] / 256 && text[2 * j + 1] == x[j] % 256
    {
      text[2 * i], text[2 * i + 1] := x[i] / 256, x[i] % 256;
    }
    Unpacked(text[..], x[..]);
  }

  /** One round of the loop of `idea_cipher`. */
  method CipherStep(key: array<Half>, off: nat, i: nat, x: array<Half>)
    requires key.Length == 2 * KEYLEN && (off == 0 || off == KEYLEN) && i < 17 && x.Length == 4 && x != key
    modifies x
    ensures Quad(x[0], x[1], x[2], x[3]) == Step(key[off..off + KEYLEN], i, old(Quad(x[0], x[1], x[2], x[3])))
  {
    hide Mod, Xor, Op1, Op2;
    StepWords(key[off..off + KEYLEN], i);
    if i % 2 == 0 {
      x[0] := Mod(x[0], key[off + 3 * i]);
      var tmp := Op2(x[2], key[off + 3 * i + 2]);
      x[2] := Op2(x[1], key[off + 3 * i + 1]);
      x[3] := Mod(x[3], key[off + 3 * i + 3]);
      x[1] := tmp;
    } else {
      var tmp := Mod(key[off + 3 * i + 1], Op1(x[0], x[1]));
      var yout := Mod(Op2(tmp, Op1(x[2], x[3])), key[off + 3 * i + 2]);
      var zout := Op2(tmp, yout);
      x[0] := Op1(x[0], yout);
      x[1] := Op1(x[1], yout);
      x[2] := Op1(x[2], zout);
      x[3] := Op1(x[3], zout);
    }
  }

  lemma StepWords(k: seq<Half>, i: nat)
    requires |k| == 52 && i < 17
    ensures i % 2 == 0 ==> k[3 * i..3 * i + 4] == [k[3 * i], k[3 * i + 1], k[3 * i + 2], k[3 * i + 3]]
    ensures i % 2 == 1 ==> k[3 * i + 1..3 * i + 3] == [k[3 * i + 1], k[3 * i + 2]]
  {}

  lemma Packed(t: seq<Byte>, x: seq<Half>)
    requires |t| == 8 && |x| == 4 && forall j :: 0 <= j < 4 ==> x[j] == BigEnd(t[2 * j], t[2 * j + 1])
    ensures Pack(t) == Quad(x[0], x[1], x[2], x[3])
  {}

  lemma Unpacked(t: seq<Byte>, x: seq<Half>)
    requires |t| == 8 && |x| == 4
    requires forall j :: 0 <= j < 4 ==> t[2 * j] == x[j] / 256 && t[2 * j + 1] == x[j] % 256
    ensures t == Unpack(Quad(x[0], x[1], x[2], x[3]))
  {
    assert t[2 * 0] == x[0] / 256 && t[2 * 1] == x[1] / 256 && t[2 * 2] == x[2] / 256 && t[2 * 3] == x[3] / 256;
  }

  lemma StepsNext(k: seq<Half>, i: nat, x: Quad)
    requires |k| == 52 && i < 17
    ensures Steps(k, i + 1, x) == Step(k, i, Steps(k, i, x))
  {}

  /** For every expanded key, deciphering what was enciphered gives the text back. */
  method IdeaRoundTrip(key: array<Half>, text: array<Byte>)
    requires key.Length == 2 * KEYLEN && text.Length == 8
    modifies key, text
    ensures text[..] == old(text[..])
  {
    hide Cipher, Undoes;
    IdeaKeySetupDecrypt(key);
    CipherUndone(key[..KEYLEN], key[KEYLEN..], text[..]);
    IdeaCipher(key, text, false);
    IdeaCipher(key, text, true);
  }
}
