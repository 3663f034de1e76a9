/**
 Enciphering and deciphering a stream of records, after `emu/devssl.c`: block ciphers alone or chained,
 and a stream cipher, whose state runs on from one record to the next. The ciphers are parameters.
 */
module SslCipher {
  import opened Octets
  import opened Bits
  import opened Arith
  import FermatPrime
  import Idea

  /** A block cipher: eight bytes to eight bytes. */
  type Fn = seq<Byte> -> seq<Byte>

  datatype Alg = Clear | Ecb(e: Fn, d: Fn) | Cbc(e: Fn, d: Fn) | Rc4(ks: nat -> Byte)

  /** Deciphering a block undoes enciphering it. */
  ghost predicate Pair(e: Fn, d: Fn) {
    forall x {:trigger e(x)} {:trigger d(x)} :: |x| == 8 ==> |e(x)| == 8 && |d(x)| == 8 && d(e(x)) == x
  }

  ghost predicate Sound(alg: Alg) {
    match alg
    case Ecb(e, d) => Pair(e, d)
    case Cbc(e, d) => Pair(e, d)
    case _ => true
  }

  /** IDEA with an expanded key is such a pair. */
  lemma IdeaIsPair(k: seq<Idea.Half>, k': seq<Idea.Half>, e: Fn, d: Fn)
    requires Idea.Undoes(k, k')
    requires forall x {:trigger e(x)} {:trigger d(x)} :: |x| == 8 ==>
               e(x) == Idea.Cipher(k, x) && d(x) == Idea.Cipher(k', x)
    ensures Pair(e, d)
  {
    hide Idea.Cipher;
    forall x | |x| == 8
      ensures |e(x)| == 8 && |d(x)| == 8 && d(e(x)) == x
    {
      Idea.CipherUndone(k, k', x);
    }
  }

  function BlockLen(alg: Alg): (n: nat)
    ensures n == 1 || n == 8
  {
    if alg.Ecb? || alg.Cbc? then 8 else 1
  }

  /** The initialisation vector, and how far the stream cipher has come. */
  datatype CState = CState(iv: seq<Byte>, pos: nat)

  function XorByte(x: Byte, y: Byte): Byte {
    assert Power(2, 8) == 256 by { assert Power(2, 4) == 16; }
    XorBelow(x, y, 8);
    Xor(x, y)
  }

  function XorAll(s: seq<Byte>, t: seq<Byte>): (r: seq<Byte>)
    ensures |r| == |s|
  {
    seq(|s|, i requires 0 <= i < |s| => if i < |t| then XorByte(s[i], t[i]) else s[i])
  }

  lemma XorAllTwice(s: seq<Byte>, t: seq<Byte>)
    ensures XorAll(XorAll(s, t), t) == s
  {
    forall i | 0 <= i < |s|
      ensures XorAll(XorAll(s, t), t)[i] == s[i]
    {
      if i < |t| { XorTwice(s[i], 0, t[i]); }
    }
  }

  /** n bytes of the key stream. */
  function KeyStream(ks: nat -> Byte, pos: nat, n: nat): (r: seq<Byte>)
    ensures |r| == n
  {
    seq(n, i requires 0 <= i < n => ks(pos + i))
  }

  datatype Coded = Coded(text: seq<Byte>, cs: CState)

  /** One block with the state before it. */
  function EncryptBlock(alg: Alg, cs: CState, x: seq<Byte>): Coded
    requires alg.Ecb? || alg.Cbc?
  {
    if alg.Ecb? then Coded(alg.e(x), cs)
    else var y := alg.e(XorAll(x, cs.iv)); Coded(y, cs.(iv := y))
  }

  function DecryptBlock(alg: Alg, cs: CState, y: seq<Byte>): Coded
    requires alg.Ecb? || alg.Cbc?
  {
    if alg.Ecb? then Coded(alg.d(y), cs)
    else Coded(XorAll(alg.d(y), cs.iv), cs.(iv := y))
  }

  function Encrypt(alg: Alg, cs: CState, s: seq<Byte>): Coded
    decreases |s|
  {
    match alg
    case Clear => Coded(s, cs)
    case Rc4(ks) => Coded(XorAll(s, KeyStream(ks, cs.pos, |s|)), cs.(pos := cs.pos + |s|))
    case _ =>
      if |s| < 8 then Coded([], cs)
      else
        var y := EncryptBlock(alg, cs, s[..8]);
        var rest := Encrypt(alg, y.cs, s[8..]);
        Coded(y.text + rest.text, rest.cs)
  }

  function Decrypt(alg: Alg, cs: CState, s: seq<Byte>): Coded
    decreases |s|
  {
    match alg
    case Clear => Coded(s, cs)
    case Rc4(ks) => Coded(XorAll(s, KeyStream(ks, cs.pos, |s|)), cs.(pos := cs.pos + |s|))
    case _ =>
      if |s| < 8 then Coded([], cs)
      else
        var x := DecryptBlock(alg, cs, s[..8]);
        var rest := Decrypt(alg, x.cs, s[8..]);
        Coded(x.text + rest.text, rest.cs)
  }

  lemma BlockUndone(alg: Alg, cs: CState, x: seq<Byte>)
    requires (alg.Ecb? || alg.Cbc?) && Sound(alg) && |x| == 8
    ensures var y := EncryptBlock(alg, cs, x);
            |y.text| == 8 && DecryptBlock(alg, cs, y.text) == Coded(x, y.cs)
  {
    XorAllTwice(x, cs.iv);
    assert |alg.e(x)| == 8 && |alg.e(XorAll(x, cs.iv))| == 8;
  }

  /** Deciphering with the state that enciphering began with gives the text back, and the same state
      after it. */
  lemma {:induction false} CodeUndone(alg: Alg, cs: CState, s: seq<Byte>)
    requires Sound(alg) && |s| % BlockLen(alg) == 0
    ensures var y := Encrypt(alg, cs, s);
            |y.text| == |s| && Decrypt(alg, cs, y.text) == Coded(s, y.cs)
    decreases |s|
  {
    hide Sound, EncryptBlock, DecryptBlock, XorAll;
    match alg
    case Clear =>
    case Rc4(ks) => XorAllTwice(s, KeyStream(ks, cs.pos, |s|));
    case _ =>
      if s != [] {
        var y := EncryptBlock(alg, cs, s[..8]);
        BlockUndone(alg, cs, s[..8]);
        CodeUndone(alg, y.cs, s[8..]);
        var rest := Encrypt(alg, y.cs, s[8..]);
        assert (y.text + rest.text)[..8] == y.text && (y.text + rest.text)[8..] == rest.text;
        assert s == s[..8] + s[8..];
      }
  }

  /** Deciphering goes piece by piece. */
  lemma {:induction false} DecryptJoin(alg: Alg, cs: CState, s: seq<Byte>, t: seq<Byte>)
    requires |s| % BlockLen(alg) == 0
    ensures var x := Decrypt(alg, cs, s);
            var y := Decrypt(alg, x.cs, t);
            Decrypt(alg, cs, s + t) == Coded(x.text + y.text, y.cs)
    decreases |s|
  {
    hide DecryptBlock, XorAll;
    match alg
    case Clear =>
    case Rc4(ks) => StreamJoin(ks, cs.pos, s, t);
    case _ =>
      if s == [] {
        assert s + t == t;
      } else {
        assert (s + t)[..8] == s[..8] && (s + t)[8..] == s[8..] + t;
        var x := DecryptBlock(alg, cs, s[..8]);
        DecryptJoin(alg, x.cs, s[8..], t);
        var y := Decrypt(alg, x.cs, s[8..]);
        var z := Decrypt(alg, y.cs, t);
        assert x.text + (y.text + z.text) == (x.text + y.text) + z.text;
      }
  }

  lemma StreamJoin(ks: nat -> Byte, pos: nat, s: seq<Byte>, t: seq<Byte>)
    ensures XorAll(s + t, KeyStream(ks, pos, |s + t|)) ==
            XorAll(s, KeyStream(ks, pos, |s|)) + XorAll(t, KeyStream(ks, pos + |s|, |t|))
  {
    hide XorByte;
    var u := XorAll(s + t, KeyStream(ks, pos, |s + t|));
    var v := XorAll(s, KeyStream(ks, pos, |s|)) + XorAll(t, KeyStream(ks, pos + |s|, |t|));
    forall i | 0 <= i < |u|
      ensures u[i] == v[i]
    {
      if i >= |s| {
        assert (s + t)[i] == t[i - |s|] && ks(pos + i) == ks(pos + |s| + (i - |s|));
      }
    }
  }

  lemma {:induction false} DecryptLength(alg: Alg, cs: CState, s: seq<Byte>)
    requires Sound(alg) && |s| % BlockLen(alg) == 0
    ensures |Decrypt(alg, cs, s).text| == |s|
    decreases |s|
  {
    hide Sound, DecryptBlock;
    if BlockLen(alg) == 8 && s != [] {
      DecryptLength(alg, DecryptBlock(alg, cs, s[..8]).cs, s[8..]);
      BlockLength(alg, cs, s[..8]);
    }
  }

  lemma BlockLength(alg: Alg, cs: CState, y: seq<Byte>)
    requires (alg.Ecb? || alg.Cbc?) && Sound(alg) && |y| == 8
    ensures |DecryptBlock(alg, cs, y).text| == 8
  {
    assert |alg.d(y)| == 8;
  }
}
