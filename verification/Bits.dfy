/** Exclusive or, on numbers. */
module Bits {
  import opened Arith

  /** Bitwise exclusive or. */
  function Xor(x: nat, y: nat): nat
    decreases x + y
  {
    if x == 0 && y == 0 then 0 else (x + y) % 2 + 2 * Xor(x / 2, y / 2)
  }

  lemma {:induction false} XorBelow(x: nat, y: nat, k: nat)
    requires x < Power(2, k) && y < Power(2, k)
    ensures Xor(x, y) < Power(2, k)
  {
    if k > 0 {
      XorBelow(x / 2, y / 2, k - 1);
    }
  }

  /** Both with the same bits changed, two numbers differ as before; the same bits changed twice, a number
      is as before. */
  lemma {:induction false} XorTwice(x: nat, y: nat, c: nat)
    ensures Xor(Xor(x, c), Xor(y, c)) == Xor(x, y) && Xor(Xor(x, c), c) == x
    decreases x + y + c
  {
    hide Xor;
    XorParts(x, c);
    XorParts(y, c);
    XorParts(x, y);
    XorParts(Xor(x, c), Xor(y, c));
    XorParts(Xor(x, c), c);
    if x + y + c > 0 {
      XorTwice(x / 2, y / 2, c / 2);
      Parities(Xor(x, c), Xor(y, c), x, y, c);
      SameParts(Xor(Xor(x, c), Xor(y, c)), Xor(x, y));
      SameParts(Xor(Xor(x, c), c), x);
    } else {
      XorZero();
    }
  }

  lemma Parities(a: nat, b: nat, x: nat, y: nat, c: nat)
    requires a % 2 == (x + c) % 2 && b % 2 == (y + c) % 2
    ensures (a + b) % 2 == (x + y) % 2 && (a + c) % 2 == x % 2
  {}

  lemma SameParts(x: nat, y: nat)
    requires x % 2 == y % 2 && x / 2 == y / 2
    ensures x == y
  {}

  lemma XorZero()
    ensures Xor(0, 0) == 0
  {}

  lemma {:induction false} XorParts(x: nat, y: nat)
    ensures Xor(x, y) % 2 == (x + y) % 2 && Xor(x, y) / 2 == Xor(x / 2, y / 2)
  {
    var p, q := (x + y) % 2, Xor(x / 2, y / 2);
    assert Xor(x, y) == p + 2 * q;
    assert (p + 2 * q) % 2 == p && (p + 2 * q) / 2 == q;
  }

  /** Binary digit k of a number. */
  function Digit(x: nat, k: nat): nat {
    if k == 0 then x % 2 else Digit(x / 2, k - 1)
  }

  /** Each digit is one just where those of the numbers differ. */
  lemma {:induction false} XorDigit(x: nat, y: nat, k: nat)
    ensures Digit(Xor(x, y), k) == if Digit(x, k) == Digit(y, k) then 0 else 1
    decreases k
  {
    hide Xor;
    XorParts(x, y);
    if k > 0 {
      XorDigit(x / 2, y / 2, k - 1);
    }
  }
}
