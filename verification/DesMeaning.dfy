/**
 What the ciphering of `crypt/des.c` computes, in the terms of the standard it follows, FIPS 46-3: the
 permutation of the block bit by bit, the equations of the sixteen rounds, and the three passes of triple
 encryption.
 */
module DesMeaning {
  import opened Des

  // ---- the permutation ----

  /** The last eight bits of x are the bit c of bytes 7, 6, and so on to 0 of the block. */
  predicate Row(x: Word, b: Block, c: bv8) {
    && (x & 0x80 != 0 <==> b[7] & c != 0) && (x & 0x40 != 0 <==> b[6] & c != 0)
    && (x & 0x20 != 0 <==> b[5] & c != 0) && (x & 0x10 != 0 <==> b[4] & c != 0)
    && (x & 0x08 != 0 <==> b[3] & c != 0) && (x & 0x04 != 0 <==> b[2] & c != 0)
    && (x & 0x02 != 0 <==> b[1] & c != 0) && (x & 0x01 != 0 <==> b[0] & c != 0)
  }

  /** The four bytes of a half, each a row of its own. */
  predicate Rows(x: Word, b: Block, c0: bv8, c1: bv8, c2: bv8, c3: bv8) {
    Row(x >> 24, b, c0) && Row(x >> 16, b, c1) && Row(x >> 8, b, c2) && Row(x, b, c3)
  }

  /** The halves l and r are the block, permuted: the eight rows of the table IP, of which the first is
      58, 50, 42, 34, 26, 18, 10, 2, where bit 1 is the top bit of byte 0. */
  predicate Permuted(b: Block, l: Word, r: Word) {
    Rows(l, b, 0x40, 0x10, 0x04, 0x01) && Rows(r, b, 0x80, 0x20, 0x08, 0x02)
  }

  lemma InitialRows(b: Block)
    ensures Permuted(b, Initial(b).l, Initial(b).r)
  {}

  /** The rows make up the whole half. */
  lemma SameHalf(x: Word, y: Word, b: Block, c0: bv8, c1: bv8, c2: bv8, c3: bv8)
    requires Rows(x, b, c0, c1, c2, c3) && Rows(y, b, c0, c1, c2, c3)
    ensures x == y
  {}

  /** The code's initial permutation is the table's, and its final permutation undoes just that. */
  lemma PermutedIs(b: Block, l: Word, r: Word)
    ensures Permuted(b, l, r) <==> Initial(b) == Halves(l, r)
    ensures Permuted(b, l, r) <==> Final(Halves(l, r)) == b
  {
    hide Initial, Final, Rows;
    var h := Initial(b);
    InitialRows(b);
    if Permuted(b, l, r) {
      SameHalf(l, h.l, b, 0x40, 0x10, 0x04, 0x01);
      SameHalf(r, h.r, b, 0x80, 0x20, 0x08, 0x02);
    }
    FinalOfInitial(b);
    InitialOfFinal(Halves(l, r));
  }

  // ---- the rounds ----

  /** One round, from the halves l and r to the next ones: r moves over, and l is combined with what the round
      function makes of r. */
  predicate Step(f: Mangle, k: RoundKey, l: Word, r: Word, nextL: Word, nextR: Word) {
    nextL == r && nextR == f(r, k) ^ l
  }

  /** The halves before and after each of the sixteen rounds; deciphering takes the keys backwards. */
  ghost predicate Feistel(f: Mangle, keys: seq<RoundKey>, ed: bool, L: seq<Word>, R: seq<Word>)
    requires |keys| == 16
  {
    && |L| == |R| == 17
    && (!ed ==> forall i :: 0 <= i < 16 ==> Step(f, keys[i], L[i], R[i], L[i + 1], R[i + 1]))
    && (ed ==> forall i :: 0 <= i < 16 ==> Step(f, keys[15 - i], L[i], R[i], L[i + 1], R[i + 1]))
  }

  /** Block c is block b enciphered, or with ed deciphered: permuted, put through the rounds, its halves
      exchanged, and permuted back. */
  ghost predicate Ciphered(f: Mangle, keys: seq<RoundKey>, ed: bool, b: Block, c: Block)
    requires |keys| == 16
  {
    exists L: seq<Word>, R: seq<Word> ::
      Feistel(f, keys, ed, L, R) && Permuted(b, L[0], R[0]) && Permuted(c, R[16], L[16])
  }

  /** A round of the code is such a step. */
  lemma RoundSteps(f: Mangle, k: RoundKey, h: Halves)
    ensures Step(f, k, h.l, h.r, Round(f, k, h).l, Round(f, k, h).r)
  {}

  lemma StepOnly(f: Mangle, k: RoundKey, h: Halves, nextL: Word, nextR: Word)
    requires Step(f, k, h.l, h.r, nextL, nextR)
    ensures Round(f, k, h) == Halves(nextL, nextR)
  {}

  lemma {:induction false} RoundsAre(f: Mangle, keys: seq<RoundKey>, ed: bool, L: seq<Word>, R: seq<Word>, n: nat)
    requires |keys| == 16 && n <= 16 && Feistel(f, keys, ed, L, R)
    ensures Rounds(f, keys, ed, n, Halves(L[0], R[0])) == Halves(L[n], R[n])
  {
    hide Step, Round;
    if n > 0 {
      RoundsAre(f, keys, ed, L, R, n - 1);
      var i := n - 1;
      assert Step(f, KeyAt(keys, ed, i), L[i], R[i], L[i + 1], R[i + 1]);
      StepOnly(f, KeyAt(keys, ed, i), Halves(L[i], R[i]), L[n], R[n]);
    }
  }

  /** The rounds run through halves with those equations. */
  lemma FeistelRuns(f: Mangle, keys: seq<RoundKey>, ed: bool, h: Halves) returns (L: seq<Word>, R: seq<Word>)
    requires |keys| == 16
    ensures Feistel(f, keys, ed, L, R) && L[0] == h.l && R[0] == h.r
  {
    hide Step, Round;
    L := seq(17, i requires 0 <= i < 17 => Rounds(f, keys, ed, i, h).l);
    R := seq(17, i requires 0 <= i < 17 => Rounds(f, keys, ed, i, h).r);
    RoundsNone(f, keys, ed, h);
    forall i | 0 <= i < 16
      ensures Step(f, KeyAt(keys, ed, i), L[i], R[i], L[i + 1], R[i + 1])
    {
      assert Rounds(f, keys, ed, i + 1, h) == Round(f, KeyAt(keys, ed, i), Rounds(f, keys, ed, i, h));
      RoundSteps(f, KeyAt(keys, ed, i), Rounds(f, keys, ed, i, h));
    }
  }

  /** The ciphering of the code is the standard's, and nothing else is. */
  lemma CipherMeans(f: Mangle, keys: seq<RoundKey>, ed: bool, b: Block, c: Block)
    requires |keys| == 16
    ensures Ciphered(f, keys, ed, b, c) <==> c == Cipher(f, keys, ed, b)
  {
    hide Initial, Final, Permuted, Rounds, Step;
    if Ciphered(f, keys, ed, b, c) {
      var L: seq<Word>, R: seq<Word> :|
        Feistel(f, keys, ed, L, R) && Permuted(b, L[0], R[0]) && Permuted(c, R[16], L[16]);
      PermutedIs(b, L[0], R[0]);
      PermutedIs(c, R[16], L[16]);
      RoundsAre(f, keys, ed, L, R, 16);
    }
    if c == Cipher(f, keys, ed, b) {
      var L, R := FeistelRuns(f, keys, ed, Initial(b));
      PermutedIs(b, L[0], R[0]);
      PermutedIs(c, R[16], L[16]);
      RoundsAre(f, keys, ed, L, R, 16);
    }
  }

  // ---- triple encryption ----

  /** Three cipherings, through b1 and b2: a bit of the mode word for each says whether it deciphers, and then the
      first and the last take each other's keys. */
  ghost predicate TripleThrough(f: Mangle, keys: TripleKey, ende: nat, b: Block, b1: Block, b2: Block, c: Block) {
    && (if ende % 2 == 1 then Ciphered(f, keys[2], true, b, b1) else Ciphered(f, keys[0], false, b, b1))
    && Ciphered(f, keys[1], ende / 2 % 2 == 1, b1, b2)
    && (if ende / 4 % 2 == 1 then Ciphered(f, keys[0], true, b2, c) else Ciphered(f, keys[2], false, b2, c))
  }

  ghost predicate TripleCiphered(f: Mangle, keys: TripleKey, ende: nat, b: Block, c: Block) {
    exists b1: Block, b2: Block :: TripleThrough(f, keys, ende, b, b1, b2, c)
  }

  /** Triple encryption is just that, in every mode. */
  lemma TripleMeans(f: Mangle, keys: TripleKey, ende: nat, b: Block, c: Block)
    ensures TripleCiphered(f, keys, ende, b, c) <==> c == Triple(f, keys, ende, b)
  {
    hide Cipher, Ciphered;
    if TripleCiphered(f, keys, ende, b, c) {
      var b1: Block, b2: Block :| TripleThrough(f, keys, ende, b, b1, b2, c);
      PassMeans(f, keys, ende % 2 == 1, 0, b, b1);
      PassMeans(f, keys, ende / 2 % 2 == 1, 1, b1, b2);
      PassMeans(f, keys, ende / 4 % 2 == 1, 2, b2, c);
    }
    if c == Triple(f, keys, ende, b) {
      var b1 := Pass(f, keys, ende % 2 == 1, 0, b);
      var b2 := Pass(f, keys, ende / 2 % 2 == 1, 1, b1);
      PassMeans(f, keys, ende % 2 == 1, 0, b, b1);
      PassMeans(f, keys, ende / 2 % 2 == 1, 1, b1, b2);
      PassMeans(f, keys, ende / 4 % 2 == 1, 2, b2, c);
      assert TripleThrough(f, keys, ende, b, b1, b2, c);
    }
  }

  lemma PassMeans(f: Mangle, keys: TripleKey, d: bool, i: nat, b: Block, c: Block)
    requires i < 3
    ensures Ciphered(f, if d then keys[2 - i] else keys[i], d, b, c) <==> c == Pass(f, keys, d, i, b)
  {
    hide Ciphered, Cipher;
    CipherMeans(f, if d then keys[2 - i] else keys[i], d, b, c);
  }
}
