/**
 RSA with the Chinese remainder theorem, after `crypt/rsa.c`, `crtCombine.c`, `negate.c` and `bigCube.c`.
 */
module Rsa {
  import opened Words
  import opened Karatsuba
  import opened BigNum
  import opened BigShift
  import opened BigMult
  import opened Modulo
  import opened Arith
  import opened Montgomery
  import opened Powers
  import opened Fermat

  // ---- bigCube and negate ----

  /** `bigCube`: the cube modulo m, as a residue up to m. */
  method BigCube(a: BigInt, m: BigInt, result: BigInt)
    requires a.Valid() && a.Trimmed() && a.sign == POS && m.Valid() && m.Trimmed() && m.sign == POS && m.length >= 2
    requires result.Valid()
    requires a != m && result != a && result != m
    modifies m, result
    ensures m.Valid() && m.Trimmed() && m.sign == POS && m.length == old(m.length) && m.Mag() == old(m.Mag()) > 0
    ensures result.Valid() && result.Trimmed() && result.sign == POS && result.Mag() <= m.Mag()
    ensures Congruent(result.Mag(), Power(a.Mag(), 3), m.Mag())
  {
    hide At, Val, Pow, Prod, Residue, Congruent, Power;
    ghost var A, M := a.Mag(), m.Mag();
    LargeModulus(m);
    var d := new BigInt(0);
    BigMultiply(a, a, d);
    ReducedBase(d.Mag(), M);
    var code := BigMod(d, m, d);
    ghost var D := d.Mag();
    BigMultiply(d, a, result);
    ReducedBase(result.Mag(), M);
    CubeCongruent(A, D, result.Mag(), M);
    ghost var r := result.Mag();
    code := BigMod(result, m, result);
    CongruentTrans(result.Mag(), r, Power(A, 3), M);
  }

  lemma CubeCongruent(a: nat, d: nat, r: nat, m: nat)
    requires m > 0 && Congruent(d, Prod(a, a), m) && r == Prod(d, a)
    ensures Congruent(r, Power(a, 3), m)
  {
    hide Congruent;
    CongruentMod(a, m);
    CongruentMul(d, Prod(a, a), a, a, m);
    PowerSum(a, 1, 1);
    PowerSum(a, 2, 1);
    PowerOne(a);
  }

  /** `negate`: minus a modulo p; a negative a is not brought below p first. */
  method Negate(a: BigInt, p: BigInt, result: BigInt)
    requires a.Valid() && a.Trimmed() && p.Valid() && p.Trimmed() && p.sign == POS && p.length >= 2 && result.Valid()
    requires a != p && result != p
    modifies a`length, a`sign, p, result
    ensures p.Valid() && p.Trimmed() && p.Mag() == old(p.Mag()) > 0
    ensures result.Valid() && result.Trimmed() && result.sign == POS
    ensures old(a.sign) == NEG && old(a.Mag()) > 0 ==> result.Mag() == Residue(Prod(old(a.Mag()), p.Mag() - 1), p.Mag())
    ensures old(a.sign) == POS && old(a.Mag()) < p.Mag() ==> result.Mag() == p.Mag() - old(a.Mag())
  {
    hide At, Val, Pow, Prod, Residue, Loses, WordsOf;
    LargeModulus(p);
    var r := BigCompare(p, a);
    if r > 0 && a.sign == POS {
      BigSubtract(p, a, result);
    } else {
      MinusTimes(a, p, result);
    }
  }

  /** a times p - 1, which is minus a, modulo p. */
  method MinusTimes(a: BigInt, p: BigInt, result: BigInt)
    requires a.Valid() && a.Trimmed() && p.Valid() && p.Trimmed() && p.sign == POS && p.length >= 2 && p.Mag() > 0
    requires result.Valid()
    requires a != p && result != p
    modifies p, result
    ensures p.Valid() && p.Trimmed() && p.Mag() == old(p.Mag()) > 0
    ensures result.Valid() && result.Trimmed() && result.sign == POS
    ensures result.Mag() == Residue(Prod(old(a.Mag()), p.Mag() - 1), p.Mag())
  {
    hide At, Val, Pow, Prod, Residue, Loses, WordsOf;
    var minus1 := new BigInt(0);
    var one := new BigInt(1);
    BigSubtract(p, one, minus1);
    var tmp := new BigInt(0);
    BigMultiply(a, minus1, tmp);
    var code := BigMod(tmp, p, result);
    result.sign := POS;
  }

  // ---- crtCombine ----

  /** How far above a multiple of p the remainder is to lie, before and after it is reduced by q. */
  ghost function Steps(c12: nat, apart: nat, q: nat): nat
    requires q > 0
  {
    Residue(ProdNat(c12, apart), q)
  }

  /** No subtraction of `crtCombine` in place loses a borrow. */
  ghost predicate KeepsBorrows(a: nat, b: nat, p: nat, q: nat, c12: nat)
    requires q > 0
  {
    if b >= a then !Loses(b, a) else !Loses(ProdNat(Steps(c12, a - b, q), p), a)
  }

  /** What `crtCombine` computes, lost borrows and all. */
  ghost function Combined(a: nat, b: nat, p: nat, q: nat, c12: nat): nat
    requires q > 0 && p > 0 && a < p
  {
    if b >= a then
      ProdNat(Steps(c12, Less(b, a, true), q), p) + a
    else if Steps(c12, a - b, q) == 0 then a
    else Back(ProdNat(Steps(c12, a - b, q), p), a, ProdNat(p, q))
  }

  /** Minus (x - a) modulo n, with x - a taken in place. */
  ghost function Back(x: nat, a: nat, n: nat): nat {
    if x >= a && n > 0 then Residue(ProdNat(Less(x, a, true), n - 1), n) else 0
  }

  lemma SameProd(x: nat, y: nat)
    ensures Prod(x, y) == ProdNat(x, y)
  {}

  /** `crtCombine`. */
  method CrtCombine(a: BigInt, b: BigInt, p: BigInt, q: BigInt, c12: BigInt, result: BigInt)
    requires a.Valid() && a.Trimmed() && a.sign == POS && b.Valid() && b.Trimmed() && b.sign == POS && result.Valid()
    requires p.Valid() && p.Trimmed() && p.sign == POS && p.length >= 2 && q.Valid() && q.Trimmed() && q.sign == POS
    requires q.length >= 2
    requires c12.Valid() && c12.Trimmed() && c12.sign == POS && a.Mag() < p.Mag()
    requires q != a && q != b && q != p && q != c12 && result != a && result != b && result != p && result != q
    requires result != c12
    modifies q, result
    ensures q.Valid() && q.Trimmed() && q.sign == POS && q.length == old(q.length) && q.Mag() == old(q.Mag()) > 0
    ensures result.Valid() && result.Trimmed() && result.sign == POS
    ensures result.Mag() == Combined(a.Mag(), b.Mag(), p.Mag(), q.Mag(), c12.Mag())
  {
    hide At, Val, Pow, Residue, Loses, WordsOf, ProdNat, Back, Steps;
    LargeModulus(p);
    LargeModulus(q);
    var u1 := Copied(a);
    var tmp := Multiplier(u1, b, q, c12);
    StepProduct(tmp.Mag(), p.Mag());
    AddTimes(tmp, u1, p, q, result);
  }

  /** The multiple of p to add to u1, with its sign. */
  method Multiplier(u1: BigInt, b: BigInt, q: BigInt, c12: BigInt) returns (tmp: BigInt)
    requires u1.Valid() && u1.Trimmed() && u1.sign == POS && b.Valid() && b.Trimmed() && b.sign == POS
    requires q.Valid() && q.Trimmed() && q.sign == POS && q.length >= 2 && c12.Valid() && c12.Trimmed()
    requires c12.sign == POS
    requires u1 != b && q != u1 && q != b && q != c12 && u1 != c12
    modifies q, u1`length, u1`sign
    ensures q.Valid() && q.Trimmed() && q.sign == POS && q.length == old(q.length) && q.Mag() == old(q.Mag()) > 0
    ensures u1.Valid() && u1.Trimmed() && u1.sign == POS && u1.Mag() == old(u1.Mag())
    ensures fresh(tmp) && tmp.Valid() && tmp.Trimmed()
    ensures tmp.Mag() == Steps(c12.Mag(), if b.Mag() >= u1.Mag() then Less(b.Mag(), u1.Mag(), true)
              else u1.Mag() - b.Mag(), q.Mag())
    ensures b.Mag() >= u1.Mag() ==> tmp.sign == POS
    ensures b.Mag() < u1.Mag() && tmp.Mag() > 0 ==> tmp.sign == NEG
  {
    hide At, Val, Pow, Prod, Residue, Loses, WordsOf, ProdNat;
    var u2 := Copied(b);
    BigSubtract(u2, u1, u2);
    tmp := new BigInt(0);
    BigMultiply(c12, u2, tmp);
    SameProd(c12.Mag(), u2.Mag());
    var code := BigMod(tmp, q, tmp);
  }

  /** result := tmp * p + u1, brought back up by p * q if that is negative. */
  method AddTimes(tmp: BigInt, u1: BigInt, p: BigInt, q: BigInt, result: BigInt)
    requires tmp.Valid() && tmp.Trimmed() && u1.Valid() && u1.Trimmed() && u1.sign == POS && result.Valid()
    requires p.Valid() && p.Trimmed() && p.sign == POS && q.Valid() && q.Trimmed() && q.sign == POS && p.Mag() >= W
    requires q.Mag() >= W
    requires tmp != u1 && tmp != p && tmp != q && tmp != result && u1 != p && u1 != q && u1 != result && p != result
    requires q != result
    requires u1.Mag() < p.Mag() && (tmp.Mag() > 0 ==> ProdNat(tmp.Mag(), p.Mag()) >= p.Mag())
    requires (tmp.Mag() == 0 ==> ProdNat(tmp.Mag(), p.Mag()) == 0)
    requires tmp.sign == NEG ==> u1.Mag() > 0
    modifies tmp, u1`length, u1`sign, result
    ensures result.Valid() && result.Trimmed() && result.sign == POS
    ensures old(tmp.sign == POS || tmp.Mag() == 0) ==> result.Mag() == ProdNat(old(tmp.Mag()), p.Mag()) + old(u1.Mag())
    ensures old(tmp.sign == NEG && tmp.Mag() > 0) ==>
              result.Mag() == Back(ProdNat(old(tmp.Mag()), p.Mag()), old(u1.Mag()), ProdNat(p.Mag(), q.Mag()))
  {
    hide At, Val, Pow, Prod, Residue, Loses, WordsOf, ProdNat, Back;
    ghost var t, A, P, Q := tmp.Mag(), u1.Mag(), p.Mag(), q.Mag();
    BigMultiply(tmp, p, result);
    SameProd(t, P);
    LosesNothing(ProdNat(t, P));
    BigAdd(result, u1, result);
    if result.sign == NEG {
      BigMultiply(p, q, tmp);
      SameProd(P, Q);
      LargeProduct(tmp, P, Q);
      BackIs(ProdNat(t, P), A, ProdNat(P, Q));
      Negate(result, tmp, result);
    }
  }

  method Copied(a: BigInt) returns (b: BigInt)
    requires a.Valid() && a.Trimmed()
    ensures fresh(b) && b.Valid() && b.Trimmed() && b.Mag() == a.Mag() && b.sign == a.sign
  {
    b := new BigInt(0);
    BigCopy(a, b);
    TrimmedCopy(a, b);
  }

  lemma StepProduct(t: nat, p: nat)
    ensures (t == 0 ==> ProdNat(t, p) == 0) && (t > 0 ==> ProdNat(t, p) >= p)
  {
    if t > 0 {
      MulMono(p, 1, t);
    }
  }

  lemma LargeProduct(n: BigInt, p: nat, q: nat)
    requires n.Valid() && n.Trimmed() && n.Mag() == ProdNat(p, q) && p >= W && q >= W
    ensures n.length >= 2 && ProdNat(p, q) > 0
  {
    hide At, Val, Pow;
    MulMono(p, W, q);
    if n.length == 1 {
      OneWord(n.num);
    }
  }

  lemma BackIs(x: nat, a: nat, n: nat)
    requires x >= a && n > 0
    ensures Back(x, a, n) == Residue(ProdNat(Less(x, a, true), n - 1), n)
    ensures Prod(Less(x, a, true), n - 1) == ProdNat(Less(x, a, true), n - 1)
  {}

  // ---- what crtCombine computes ----

  /** A power of W is no multiple of an odd number above one. */
  lemma PowNotMultiple(q: nat, j: nat)
    requires q > 1 && q % 2 == 1
    ensures !Congruent(Pow(j), 0, q)
  {
    hide Pow;
    if Congruent(Pow(j), 0, q) {
      CancelR(1, 0, q, j);
      CongruentUnique(1, 0, q);
    }
  }

  /** p times the steps for x is x modulo q. */
  lemma StepsUndo(c12: nat, x: nat, p: nat, q: nat)
    requires q > 0 && Congruent(Prod(c12, p), 1, q)
    ensures Congruent(ProdNat(Steps(c12, x, q), p), x, q) && Steps(c12, x, q) <= q
  {
    hide Congruent, Residue;
    var y := ProdNat(c12, x);
    ReducedBase(y, q);
    CongruentMod(p, q);
    CongruentMod(x, q);
    CongruentMul(Residue(y, q), y, p, p, q);
    CongruentMul(Prod(c12, p), 1, x, x, q);
    assert y * p == Prod(c12, p) * x by {
      assert (c12 * x) * p == (c12 * p) * x;
    }
    CongruentTrans(ProdNat(Steps(c12, x, q), p), y * p, x, q);
  }

  /** Below q the steps are below q. */
  lemma StepsBelow(c12: nat, x: nat, p: nat, q: nat)
    requires q > 0 && x < q && Congruent(Prod(c12, p), 1, q)
    ensures Steps(c12, x, q) < q
  {
    hide Congruent, Residue;
    StepsUndo(c12, x, p, q);
    if x == 0 {
      NoSteps(c12, q);
    } else if Steps(c12, x, q) == q {
      MultipleIsCongruent(ProdNat(q, p), 0, q, p);
      CongruentSym(ProdNat(q, p), x, q);
      CongruentTrans(x, ProdNat(q, p), 0, q);
      CongruentUnique(x, 0, q);
    }
  }

  lemma NoSteps(c12: nat, q: nat)
    requires q > 0
    ensures Steps(c12, 0, q) == 0
  {
    hide Residue;
    assert ProdNat(c12, 0) == 0;
    ResidueMeaning(0, q);
  }

  /** Adding e to one of two congruent numbers keeps them congruent just when e is a multiple. */
  lemma OffBy(r: int, x: int, e: int, q: nat)
    requires q > 0 && Congruent(r, x + e, q)
    ensures Congruent(r, x, q) <==> Congruent(e, 0, q)
  {
    hide Congruent;
    if Congruent(r, x, q) {
      CongruentSym(r, x + e, q);
      CongruentTrans(x + e, r, x, q);
      CongruentMod(x, q);
      CongruentAdd(x + e, x, x, x, q);
    }
    if Congruent(e, 0, q) {
      CongruentMod(x, q);
      CongruentAdd(x, x, e, 0, q);
      CongruentTrans(r, x + e, x, q);
    }
  }

  /** The word a lost borrow leaves too much. */
  function Extra(u: nat, v: nat): int {
    if Loses(u, v) then Pow(WordsOf(v) + 1) else 0
  }

  lemma ExtraMultiple(u: nat, v: nat, q: nat)
    requires q > 1 && q % 2 == 1
    ensures (Congruent(Extra(u, v), 0, q) <==> !Loses(u, v)) && (Congruent(-Extra(u, v), 0, q) <==> !Loses(u, v))
  {
    hide Pow, WordsOf, Loses, Congruent;
    PowNotMultiple(q, WordsOf(v) + 1);
    CongruentMod(0, q);
    NegatedMultiple(Extra(u, v), q);
  }

  lemma NegatedMultiple(e: int, q: nat)
    requires q > 0
    ensures Congruent(-e, 0, q) <==> Congruent(e, 0, q)
  {
    hide Congruent;
    CongruentMod(0, q);
    if Congruent(e, 0, q) {
      CongruentAdd(0, 0, e, 0, q);
    }
    if Congruent(-e, 0, q) {
      CongruentAdd(0, 0, -e, 0, q);
    }
  }

  /** When b is not below a. */
  lemma CombinedUp(a: nat, b: nat, p: nat, q: nat, c12: nat)
    requires 1 < p && 1 < q && q % 2 == 1 && a < p && b < q && a <= b && Congruent(Prod(c12, p), 1, q)
    ensures var r := Combined(a, b, p, q, c12);
            Congruent(r, a, p) && (Congruent(r, b, q) <==> !Loses(b, a)) && (!Loses(b, a) ==> r < ProdNat(p, q))
  {
    hide Pow, WordsOf, Loses, Congruent, Residue, ProdNat;
    var x := Less(b, a, true);
    var t := Steps(c12, x, q);
    var r := ProdNat(t, p) + a;
    StepsUndo(c12, x, p, q);
    MultipleAbove(r, a, p, t);
    CongruentMod(a, q);
    CongruentAdd(ProdNat(t, p), x, a, a, q);
    assert x + a == b + Extra(b, a);
    OffBy(r, b, Extra(b, a), q);
    ExtraMultiple(b, a, q);
    if !Loses(b, a) {
      StepsBelow(c12, x, p, q);
      BelowWhole(t, p, q, a);
    }
  }

  lemma MultipleAbove(r: int, a: int, p: nat, t: nat)
    requires p > 0 && r == ProdNat(t, p) + a
    ensures Congruent(r, a, p)
  {
    MultipleIsCongruent(r, a, p, t);
  }

  lemma BelowWhole(t: nat, p: nat, q: nat, a: nat)
    requires t < q && a < p
    ensures ProdNat(t, p) + a < ProdNat(p, q)
  {
    MulMono(p, t + 1, q);
    PlusDistribute(p, t, 1);
  }

  /** Minus x - a modulo p*q, in place. */
  lemma BackMeaning(x: nat, a: nat, p: nat, q: nat)
    requires 1 < p && p % 2 == 1 && 1 < q && 0 < a < x <= ProdNat(p, q)
    ensures var r := Back(x, a, ProdNat(p, q));
            && Congruent(r, a - x - Extra(x, a), p) && Congruent(r, a - x - Extra(x, a), q)
            && (!Loses(x, a) ==> r < ProdNat(p, q))
  {
    hide Pow, WordsOf, Loses, Congruent, Residue;
    var n, l := ProdNat(p, q), Less(x, a, true);
    var r := Back(x, a, n);
    var y := ProdNat(l, n - 1);
    ReducedBase(y, n);
    assert y == -(l as int) + n * l;
    MultipleIsCongruent(y, -(l as int), n, l);
    CongruentTrans(r, y, -(l as int), n);
    CongruentFactor(r, -(l as int), p, q);
    CongruentFactor(r, -(l as int), q, p);
    if !Loses(x, a) && r == n {
      CongruentSym(r, -(l as int), n);
      MultipleIsCongruent(n, 0, n, 1);
      CongruentTrans(-(l as int), n, 0, n);
      NegatedMultiple(l, n);
      CongruentUnique(l, 0, n);
    }
  }

  lemma CongruentFactor(r: int, x: int, p: nat, q: nat)
    requires p > 0 && q > 0 && p * q > 0 && Congruent(r, x, p * q)
    ensures Congruent(r, x, p)
  {
    var k := CongruentBy(r, x, p * q);
    assert (p * q) * k == p * (q * k);
    MultipleIsCongruent(r, x, p, q * k);
  }

  /** When b is below a. */
  lemma CombinedDown(a: nat, b: nat, p: nat, q: nat, c12: nat)
    requires 1 < p && p % 2 == 1 && 1 < q && q % 2 == 1 && b < a < p && Congruent(Prod(c12, p), 1, q)
    ensures var r, y := Combined(a, b, p, q, c12), ProdNat(Steps(c12, a - b, q), p);
            (Congruent(r, a, p) && Congruent(r, b, q) <==> !Loses(y, a)) && (!Loses(y, a) ==> r < ProdNat(p, q))
  {
    hide Pow, WordsOf, Loses, Congruent, Residue, ProdNat, Back;
    var t := Steps(c12, a - b, q);
    var y, r := ProdNat(t, p), Combined(a, b, p, q, c12);
    StepsUndo(c12, a - b, p, q);
    StepProduct(t, p);
    CongruentMod(a, p);
    CongruentMod(a, q);
    if t == 0 {
      CongruentAdd(a, a, y, a - b, q);
      NeverLoses(a);
      BelowWhole(0, p, q, a);
      StepProduct(0, p);
    } else {
      UpToWhole(t, p, q);
      BackMeaning(y, a, p, q);
      MultipleAbove(y, 0, p, t);
      CongruentMod(-Extra(y, a), p);
      CongruentMod(-Extra(y, a), q);
      CongruentAdd(a - Extra(y, a), a - Extra(y, a), y, 0, p) by { CongruentMod(a - Extra(y, a), p); }
      CongruentAdd(a - Extra(y, a), a - Extra(y, a), y, a - b, q) by { CongruentMod(a - Extra(y, a), q); }
      CongruentTrans(r, a - y - Extra(y, a), a - Extra(y, a), p);
      CongruentTrans(r, a - y - Extra(y, a), b - Extra(y, a), q);
      OffBy(r, a, -Extra(y, a), p);
      OffBy(r, b, -Extra(y, a), q);
      ExtraMultiple(y, a, p);
      ExtraMultiple(y, a, q);
    }
  }

  lemma NeverLoses(a: nat)
    ensures !Loses(0, a)
  {}

  lemma UpToWhole(t: nat, p: nat, q: nat)
    requires t <= q
    ensures ProdNat(t, p) <= ProdNat(p, q)
  {
    MulMono(p, t, q);
  }

  /** `crtCombine` finds the number below p*q congruent to a and to b, exactly when it loses no borrow. */
  lemma CombinedMeaning(a: nat, b: nat, p: nat, q: nat, c12: nat)
    requires 1 < p && p % 2 == 1 && 1 < q && q % 2 == 1 && a < p && b < q && Congruent(Prod(c12, p), 1, q)
    ensures KeepsBorrows(a, b, p, q, c12) <==>
              Congruent(Combined(a, b, p, q, c12), a, p) && Congruent(Combined(a, b, p, q, c12), b, q)
    ensures KeepsBorrows(a, b, p, q, c12) ==> Combined(a, b, p, q, c12) < ProdNat(p, q)
  {
    hide Pow, WordsOf, Loses, Congruent, Residue, ProdNat, Back, Combined, Steps;
    if b >= a {
      CombinedUp(a, b, p, q, c12);
    } else {
      CombinedDown(a, b, p, q, c12);
    }
  }

  // ---- encryption and decryption ----

  datatype PublicKey = PublicKey(modulus: BigInt, publicExponent: BigInt)
  datatype PrivateKey = PrivateKey(p: BigInt, q: BigInt, dp: BigInt, dq: BigInt, c12: BigInt)

  /** A positive trimmed number. */
  ghost predicate Good(a: BigInt)
    reads a
  {
    a.Valid() && a.Trimmed() && a.sign == POS
  }

  ghost predicate OddModulus(a: BigInt)
    reads a
  {
    Good(a) && a.length >= 2 && a.Mag() % 2 == 1
  }

  /** `RSAEncrypt`: the power by the public exponent, as a residue up to the modulus. */
  method RSAEncrypt(message: BigInt, key: PublicKey) returns (result: BigInt)
    requires Good(message) && OddModulus(key.modulus) && Good(key.publicExponent) && key.publicExponent.Mag() > 0
    requires message != key.modulus && message != key.publicExponent && key.modulus != key.publicExponent
    modifies key.modulus, key.publicExponent, message`length, message`sign
    ensures OddModulus(key.modulus) && key.modulus.Mag() == old(key.modulus.Mag()) && Good(key.publicExponent)
    ensures key.publicExponent.Mag() == old(key.publicExponent.Mag())
    ensures Good(message) && message.Mag() == old(message.Mag())
    ensures fresh(result) && Good(result) && result.Mag() <= key.modulus.Mag()
    ensures Congruent(result.Mag(), Power(message.Mag(), key.publicExponent.Mag()), key.modulus.Mag())
  {
    hide At, Val, Pow, Power, Congruent;
    LargeModulus(key.modulus);
    result := new BigInt(3);
    var r := BigCompare(key.publicExponent, result);
    if r == 0 {
      result.Reset(0);
      BigCube(message, key.modulus, result);
    } else {
      result.Reset(0);
      BigPow(message, key.publicExponent, key.modulus, result);
      CongruentMod(Power(message.Mag(), key.publicExponent.Mag()), key.modulus.Mag());
      BelowModulus(Power(message.Mag(), key.publicExponent.Mag()), key.modulus.Mag());
    }
  }

  lemma BelowModulus(x: int, m: nat)
    requires m > 0
    ensures 0 <= x % m < m
  {}

  /** The private numbers can be worked with: distinct objects, odd moduli of two words or more. */
  ghost predicate Workable(key: PrivateKey)
    reads key.p, key.q, key.dp, key.dq, key.c12
  {
    && OddModulus(key.p) && OddModulus(key.q) && Good(key.dp) && Good(key.dq) && Good(key.c12)
    && key.dp.Mag() > 0 && key.dq.Mag() > 0
    && key.p != key.q && key.p != key.dp && key.p != key.dq && key.p != key.c12
    && key.q != key.dp && key.q != key.dq && key.q != key.c12
  }

  /** `RSADecrypt`, by `chineseRemTheorem`: the two powers, put together. */
  method RSADecrypt(message: BigInt, key: PrivateKey) returns (result: BigInt)
    requires Good(message) && Workable(key) && message != key.p && message != key.q && message != key.dp
    requires message != key.dq && message != key.c12
    modifies key.p, key.q, message`length, message`sign
    ensures Workable(key) && key.p.Mag() == old(key.p.Mag()) && key.q.Mag() == old(key.q.Mag()) && Good(message)
    ensures fresh(result) && Good(result)
    ensures var p, q, c := key.p.Mag(), key.q.Mag(), old(message.Mag());
            result.Mag() == Combined(Power(c, key.dp.Mag()) % p, Power(c, key.dq.Mag()) % q, p, q, key.c12.Mag())
  {
    hide At, Val, Pow, Power, Combined;
    LargeModulus(key.p);
    LargeModulus(key.q);
    ghost var p, q, c := key.p.Mag(), key.q.Mag(), message.Mag();
    var u1 := PowerResidue(message, key.dp, key.p);
    var u2 := PowerResidue(message, key.dq, key.q);
    BelowModulus(Power(c, key.dp.Mag()), p);
    result := new BigInt(0);
    CrtCombine(u1, u2, key.p, key.q, key.c12, result);
  }

  /** bigMod and then bigPow in place: the power of the message modulo one prime. */
  method PowerResidue(m: BigInt, d: BigInt, p: BigInt) returns (u: BigInt)
    requires Good(m) && OddModulus(p) && Good(d) && d.Mag() > 0 && m != p && d != p && m != d
    modifies p, m`length, m`sign
    ensures OddModulus(p) && p.Mag() == old(p.Mag()) > 0 && Good(m) && m.Mag() == old(m.Mag())
    ensures fresh(u) && Good(u) && u.Mag() == Power(m.Mag(), d.Mag()) % p.Mag()
  {
    hide At, Val, Pow, Power, Residue, Congruent;
    LargeModulus(p);
    ReducedBase(m.Mag(), p.Mag());
    u := new BigInt(0);
    var code := BigMod(m, p, u);
    SamePower(u.Mag(), m.Mag(), d.Mag(), p.Mag());
    BigPow(u, d, p, u);
  }

  lemma SamePower(u: nat, m: nat, d: nat, p: nat)
    requires p > 0 && Congruent(u, m, p)
    ensures Power(u, d) % p == Power(m, d) % p
  {
    hide Power;
    PowerCongruent(u, m, d, p);
    SameResidue(Power(u, d), Power(m, d), p);
  }

  lemma SameResidue(x: int, y: int, p: nat)
    requires p > 0 && Congruent(x, y, p)
    ensures x % p == y % p
  {
    hide Congruent;
    CongruentMod(x, p);
    CongruentMod(y, p);
    CongruentTrans(x % p, x, y, p);
    CongruentTrans(x % p, y, y % p, p);
    CongruentUnique(x % p, y % p, p);
  }

  // ---- the round trip ----

  /** The numbers of a key pair, as `buildKeySet` relates them. */
  ghost predicate KeyNumbers(e: nat, d: nat, p: nat, q: nat, dp: nat, dq: nat, c12: nat) {
    && Prime(p) && Prime(q) && p != q && p > 2 && q > 2 && e > 0
    && (p - 1) * (q - 1) > 0 && Congruent(e * d, 1, (p - 1) * (q - 1))
    && Congruent(dp, d, p - 1) && Congruent(dq, d, q - 1) && Congruent(Prod(c12, p), 1, q)
  }

  /** Each power undoes the encryption modulo its prime. */
  lemma HalfUndone(m: nat, c: nat, e: nat, d: nat, dp: nat, p: nat, q: nat)
    requires Prime(p) && p > 2 && q > 1 && e > 0 && dp > 0 && Congruent(c, Power(m, e), p)
    requires (p - 1) * (q - 1) > 0 && Congruent(e * d, 1, (p - 1) * (q - 1)) && Congruent(dp, d, p - 1)
    ensures Power(c, dp) % p == m % p
  {
    hide Power, Congruent, Prime;
    CongruentFactor(e * d, 1, p - 1, q - 1);
    CongruentMod(e, p - 1);
    CongruentMul(e, e, dp, d, p - 1);
    CongruentTrans(e * dp, e * d, 1, p - 1);
    MulMono(e, 1, dp);
    Exponent(m, e * dp, p);
    PowerCongruent(c, Power(m, e), dp, p);
    PowerMul(m, e, dp);
    CongruentTrans(Power(c, dp), Power(m, e * dp), m, p);
    SameResidue(Power(c, dp), m, p);
  }

  /** Numbers below p*q that agree modulo both primes are equal. */
  lemma ChineseUnique(x: nat, y: nat, p: nat, q: nat)
    requires Prime(p) && Prime(q) && p != q && x < p * q && y < p * q && Congruent(x, y, p) && Congruent(x, y, q)
    ensures x == y
  {
    hide Congruent;
    var k := CongruentBy(x, y, p);
    assert Congruent(p * k, 0, q) by {
      CongruentMod(y, q);
      CongruentAdd(x, y, y, y, q);
      assert x - y == p * k && y - y == 0;
    }
    DistinctPrimes(p, q);
    Euclid(q, p, k);
    var l := CongruentBy(k, 0, q);
    assert p * (q * l) == (p * q) * l;
    MultipleIsCongruent(x, y, p * q, l);
    CongruentUnique(x, y, p * q);
  }

  lemma DistinctPrimes(p: nat, q: nat)
    requires Prime(p) && Prime(q) && p != q
    ensures p % q != 0
  {
    if p < q {
      ModSmall(p, q);
    }
  }

  /** The round trip on numbers: what decryption puts together is the message, exactly when the
      recombination loses no borrow. */
  lemma RoundTripNumbers(m: nat, c: nat, e: nat, d: nat, p: nat, q: nat, dp: nat, dq: nat, c12: nat)
    requires KeyNumbers(e, d, p, q, dp, dq, c12) && dp > 0 && dq > 0 && p % 2 == 1 && q % 2 == 1
    requires m < p * q && Congruent(c, Power(m, e), p * q)
    ensures Power(c, dp) % p == m % p && Power(c, dq) % q == m % q
    ensures Combined(m % p, m % q, p, q, c12) == m <==> KeepsBorrows(m % p, m % q, p, q, c12)
  {
    hide Power, Congruent, Combined, KeepsBorrows, Prime, Steps;
    CongruentFactor(c, Power(m, e), p, q);
    CongruentFactor(c, Power(m, e), q, p);
    HalfUndone(m, c, e, d, dp, p, q);
    HalfUndone(m, c, e, d, dq, q, p);
    CombinedMeaning(m % p, m % q, p, q, c12);
    CongruentMod(m, p);
    CongruentMod(m, q);
    var r := Combined(m % p, m % q, p, q, c12);
    if KeepsBorrows(m % p, m % q, p, q, c12) {
      CongruentTrans(r, m % p, m, p);
      CongruentTrans(r, m % q, m, q);
      ChineseUnique(r, m, p, q);
    }
  }

  /** `RSADecrypt` undoes `RSAEncrypt` on every message below the modulus for which `crtCombine` loses
      no borrow, and on no other. */
  method RoundTrip(message: BigInt, public: PublicKey, private: PrivateKey, ghost d: nat) returns (c: BigInt, r: BigInt)
    requires Good(message) && OddModulus(public.modulus) && Good(public.publicExponent) && Workable(private)
    requires message != public.modulus && message != public.publicExponent && public.modulus != public.publicExponent
    requires {message, public.modulus, public.publicExponent} !!
             {private.p, private.q, private.dp, private.dq, private.c12}
    requires KeyNumbers(public.publicExponent.Mag(), d, private.p.Mag(), private.q.Mag(),
                        private.dp.Mag(), private.dq.Mag(), private.c12.Mag())
    requires public.modulus.Mag() == private.p.Mag() * private.q.Mag() && message.Mag() < public.modulus.Mag()
    modifies public.modulus, public.publicExponent, message, private.p, private.q
    ensures c.Valid() && r.Valid() && private.q.Valid() && private.p.Valid() && private.p.Mag() > 0
    ensures private.q.Mag() > 0
    ensures var m, p, q := old(message.Mag()), private.p.Mag(), private.q.Mag();
            r.Mag() == m <==> KeepsBorrows(m % p, m % q, p, q, private.c12.Mag())
  {
    hide At, Val, Pow, Power, Combined, KeepsBorrows, KeyNumbers, Congruent;
    LargeModulus(private.p);
    LargeModulus(private.q);
    ghost var m, e := message.Mag(), public.publicExponent.Mag();
    PositiveExponent(e, d, private.p.Mag(), private.q.Mag(), private.dp.Mag(), private.dq.Mag(), private.c12.Mag());
    c := RSAEncrypt(message, public);
    ghost var sent := c.Mag();
    r := RSADecrypt(c, private);
    RoundTripNumbers(m, sent, e, d, private.p.Mag(), private.q.Mag(), private.dp.Mag(), private.dq.Mag(),
                     private.c12.Mag());
  }

  lemma PositiveExponent(e: nat, d: nat, p: nat, q: nat, dp: nat, dq: nat, c12: nat)
    requires KeyNumbers(e, d, p, q, dp, dq, c12)
    ensures e > 0 && p * q > 0
  {
    MulMono(p, 1, q);
  }

  /** Under every key with a large enough q there is a message that does not come back: 1 modulo p and
      W*W modulo q.  Decryption puts together another number. */
  lemma SomeMessageIsLost(p: nat, q: nat, c12: nat) returns (m: nat)
    requires p > 1 && q > W * W && Congruent(Prod(c12, p), 1, q)
    ensures m < p * q && m % p == 1 && m % q == W * W && !KeepsBorrows(m % p, m % q, p, q, c12)
    ensures p % 2 == 1 && q % 2 == 1 ==> Combined(m % p, m % q, p, q, c12) != m
  {
    hide Congruent, Combined;
    var t := ProdNat(c12, W * W - 1) % q;
    BelowModulus(ProdNat(c12, W * W - 1), q);
    m := ProdNat(t, p) + 1;
    BelowWhole(t, p, q, 1);
    MultipleAbove(m, 1, p, t);
    SmallResidue(m, 1, p);
    CongruentMod(ProdNat(c12, W * W - 1), q);
    CongruentMod(p, q);
    CongruentMul(t, ProdNat(c12, W * W - 1), p, p, q);
    CongruentMod(W * W - 1, q);
    CongruentMul(Prod(c12, p), 1, W * W - 1, W * W - 1, q);
    assert ProdNat(c12, W * W - 1) * p == Prod(c12, p) * (W * W - 1) by { Reordered(c12, W * W - 1, p); }
    CongruentTrans(ProdNat(t, p), Prod(c12, p) * (W * W - 1), W * W - 1, q);
    CongruentMod(1, q);
    CongruentAdd(ProdNat(t, p), W * W - 1, 1, 1, q);
    SmallResidue(m, W * W, q);
    LosesOne();
    if p % 2 == 1 && q % 2 == 1 {
      CombinedMeaning(1, W * W, p, q, c12);
    }
  }

  lemma Reordered(c: int, x: int, p: int)
    ensures (c * x) * p == (c * p) * x
  {}

  lemma SmallResidue(m: int, x: nat, p: nat)
    requires x < p && Congruent(m, x, p)
    ensures m % p == x
  {
    SameResidue(m, x, p);
    DivModUnique(x, p, 0, x);
  }

  lemma LosesOne()
    ensures Loses(W * W, 1)
  {
    assert WordsOf(1) == 1;
    assert Pow(1) == W * Pow(0);
    assert Pow(2) == W * Pow(1);
  }
}
