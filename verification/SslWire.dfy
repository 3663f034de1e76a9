/**
 The records of `emu/devssl.c` byte by byte: the count, the digest, what each cipher makes of every byte, how the
 data is cut, and just which records a reader accepts.
 */
module SslWire {
  import opened Octets
  import opened Bits
  import opened SslCipher
  import opened SslRecord

  // ---- the ciphers ----

  /** Block j of s. */
  function Block(s: seq<Byte>, j: nat): seq<Byte>
    requires 8 * j + 8 <= |s|
  {
    s[8 * j..8 * j + 8]
  }

  /** Every byte of z is that of x, exclusive or that of v. */
  ghost predicate Mixed(z: seq<Byte>, x: seq<Byte>, v: seq<Byte>) {
    |z| == |x| && forall i :: 0 <= i < |x| ==> z[i] == if i < |v| then Xor(x[i], v[i]) else x[i]
  }

  /** What is mixed into block j: the block enciphered before it, and at first the initialisation vector. */
  function Before(cs: CState, y: seq<Byte>, j: nat): seq<Byte>
    requires 8 * j <= |y|
  {
    if j == 0 then cs.iv else Block(y, j - 1)
  }

  /** The block y is the block x, mixed with v and then enciphered. */
  ghost predicate Chained(e: Fn, v: seq<Byte>, x: seq<Byte>, y: seq<Byte>) {
    exists z :: Mixed(z, x, v) && y == e(z)
  }

  /** The bytes p are enciphered as y, from the state cs to cs'. */
  ghost predicate Enciphered(alg: Alg, cs: CState, p: seq<Byte>, y: seq<Byte>, cs': CState) {
    |p| == |y|
    && match alg
       case Clear => y == p && cs' == cs
       case Rc4(ks) =>
         && (forall i :: 0 <= i < |p| ==> y[i] == Xor(p[i], ks(cs.pos + i)))
         && cs' == cs.(pos := cs.pos + |p|)
       case Ecb(e, d) => cs' == cs && forall j :: 0 <= j < |p| / 8 ==> Block(y, j) == e(Block(p, j))
       case Cbc(e, d) =>
         && (forall j :: 0 <= j < |p| / 8 ==> Chained(e, Before(cs, y, j), Block(p, j), Block(y, j)))
         && cs' == cs.(iv := Before(cs, y, |y| / 8))
  }

  /** The bytes y are deciphered as p, from the state cs to cs'. */
  ghost predicate Deciphered(alg: Alg, cs: CState, y: seq<Byte>, p: seq<Byte>, cs': CState) {
    |p| == |y|
    && match alg
       case Clear => y == p && cs' == cs
       case Rc4(ks) =>
         && (forall i :: 0 <= i < |y| ==> p[i] == Xor(y[i], ks(cs.pos + i)))
         && cs' == cs.(pos := cs.pos + |y|)
       case Ecb(e, d) => cs' == cs && forall j :: 0 <= j < |y| / 8 ==> Block(p, j) == d(Block(y, j))
       case Cbc(e, d) =>
         && (forall j :: 0 <= j < |y| / 8 ==> Mixed(Block(p, j), d(Block(y, j)), Before(cs, y, j)))
         && cs' == cs.(iv := Before(cs, y, |y| / 8))
  }

  lemma MixedIs(z: seq<Byte>, x: seq<Byte>, v: seq<Byte>)
    ensures Mixed(z, x, v) <==> z == XorAll(x, v)
  {
    hide Xor;
    if Mixed(z, x, v) {
      assert z == XorAll(x, v);
    }
  }

  /** The state before block j, when y is the enciphered text. */
  function StateAt(alg: Alg, cs: CState, y: seq<Byte>, j: nat): CState
    requires 8 * j <= |y|
  {
    if alg.Cbc? then cs.(iv := Before(cs, y, j)) else cs
  }

  lemma StateLater(alg: Alg, cs: CState, y: seq<Byte>, j: nat)
    requires 8 <= 8 * j <= |y|
    ensures StateAt(alg, cs, y, j) == StateAt(alg, StateAt(alg, cs, y, 1), y[8..], j - 1)
  {
    if j > 1 {
      BlockLater(y, j - 1);
    }
  }

  lemma BlockLater(s: seq<Byte>, j: nat)
    requires j > 0 && 8 * j + 8 <= |s|
    ensures Block(s, j) == Block(s[8..], j - 1)
  {
    var i := 8 * j - 8;
    assert s[8..][i..i + 8] == s[8 + i..8 + i + 8];
  }

  lemma EncryptUnfold(alg: Alg, cs: CState, p: seq<Byte>)
    requires (alg.Ecb? || alg.Cbc?) && |p| >= 8
    ensures var x := EncryptBlock(alg, cs, p[..8]);
            var rest := Encrypt(alg, x.cs, p[8..]);
            Encrypt(alg, cs, p) == Coded(x.text + rest.text, rest.cs)
  {
    hide EncryptBlock;
  }

  lemma EncryptFirst(alg: Alg, cs: CState, p: seq<Byte>)
    requires (alg.Ecb? || alg.Cbc?) && Sound(alg) && |p| % 8 == 0 && p != []
    ensures var y, x := Encrypt(alg, cs, p), EncryptBlock(alg, cs, Block(p, 0));
            var rest := Encrypt(alg, x.cs, p[8..]);
            && |y.text| == |p| && |p| >= 8 && |rest.text| == |p[8..]| && y.text[8..] == rest.text && y.cs == rest.cs
            && Block(y.text, 0) == x.text && StateAt(alg, cs, y.text, 1) == x.cs
  {
    hide XorAll, Sound, Encrypt, EncryptBlock, StateAt;
    CodeUndone(alg, cs, p);
    EncryptUnfold(alg, cs, p);
    BlockUndone(alg, cs, p[..8]);
    var x := EncryptBlock(alg, cs, p[..8]);
    CodeUndone(alg, x.cs, p[8..]);
    var y := Encrypt(alg, cs, p).text;
    assert y[..8] == x.text;
    StateOne(alg, cs, p[..8], y);
  }

  lemma StateOne(alg: Alg, cs: CState, b: seq<Byte>, y: seq<Byte>)
    requires (alg.Ecb? || alg.Cbc?) && 8 <= |y| && Block(y, 0) == EncryptBlock(alg, cs, b).text
    ensures StateAt(alg, cs, y, 1) == EncryptBlock(alg, cs, b).cs
  {
    hide XorAll;
  }

  lemma StateFirst(alg: Alg, cs: CState, y: seq<Byte>)
    requires alg.Ecb? || alg.Cbc?
    ensures StateAt(alg, cs, y, 0) == cs
  {}

  lemma {:induction false} EncryptAt(alg: Alg, cs: CState, p: seq<Byte>, j: nat)
    requires (alg.Ecb? || alg.Cbc?) && Sound(alg) && |p| % 8 == 0 && 8 * j <= |p|
    ensures var y := Encrypt(alg, cs, p).text;
            && |y| == |p|
            && (8 * j < |p| ==> Block(y, j) == EncryptBlock(alg, StateAt(alg, cs, y, j), Block(p, j)).text)
            && (8 * j == |p| ==> Encrypt(alg, cs, p).cs == StateAt(alg, cs, y, j))
    decreases j
  {
    hide XorAll, Sound, StateAt, Block, EncryptBlock;
    var y := Encrypt(alg, cs, p).text;
    StateFirst(alg, cs, y);
    if p == [] {
    } else {
      EncryptFirst(alg, cs, p);
      if j > 0 {
        EncryptAt(alg, EncryptBlock(alg, cs, Block(p, 0)).cs, p[8..], j - 1);
        StateLater(alg, cs, y, j);
        if 8 * j < |p| {
          BlockLater(y, j);
          BlockLater(p, j);
        }
      }
    }
  }

  lemma DecryptFirst(alg: Alg, cs: CState, y: seq<Byte>)
    requires (alg.Ecb? || alg.Cbc?) && Sound(alg) && |y| % 8 == 0 && y != []
    ensures var p, x := Decrypt(alg, cs, y), DecryptBlock(alg, cs, Block(y, 0));
            var rest := Decrypt(alg, x.cs, y[8..]);
            && |p.text| == |y| && |y| >= 8 && |rest.text| == |y[8..]| && p.text[8..] == rest.text && p.cs == rest.cs
            && Block(p.text, 0) == x.text && StateAt(alg, cs, y, 1) == x.cs
  {
    hide Xor, XorAll, Sound;
    DecryptLength(alg, cs, y);
    BlockLength(alg, cs, y[..8]);
    var x := DecryptBlock(alg, cs, y[..8]);
    DecryptLength(alg, x.cs, y[8..]);
    var p := Decrypt(alg, cs, y).text;
    assert p[..8] == x.text;
  }

  lemma {:induction false} DecryptAt(alg: Alg, cs: CState, y: seq<Byte>, j: nat)
    requires (alg.Ecb? || alg.Cbc?) && Sound(alg) && |y| % 8 == 0 && 8 * j <= |y|
    ensures var p := Decrypt(alg, cs, y).text;
            && |y| == |p|
            && (8 * j < |y| ==> Block(p, j) == DecryptBlock(alg, StateAt(alg, cs, y, j), Block(y, j)).text)
            && (8 * j == |y| ==> Decrypt(alg, cs, y).cs == StateAt(alg, cs, y, j))
    decreases j
  {
    hide XorAll, Sound, StateAt, Block, DecryptBlock;
    var p := Decrypt(alg, cs, y).text;
    StateFirst(alg, cs, y);
    if y == [] {
    } else {
      DecryptFirst(alg, cs, y);
      if j > 0 {
        DecryptAt(alg, DecryptBlock(alg, cs, Block(y, 0)).cs, y[8..], j - 1);
        StateLater(alg, cs, y, j);
        if 8 * j < |y| {
          BlockLater(y, j);
          BlockLater(p, j);
        }
      }
    }
  }

  /** The ciphering of the code gives every byte so. */
  lemma EncryptMeans(alg: Alg, cs: CState, p: seq<Byte>)
    requires Sound(alg) && |p| % BlockLen(alg) == 0
    ensures Enciphered(alg, cs, p, Encrypt(alg, cs, p).text, Encrypt(alg, cs, p).cs)
  {
    hide Xor, Sound, Mixed, XorAll;
    var y := Encrypt(alg, cs, p).text;
    if alg.Rc4? {
      StreamMeans(alg.ks, cs.pos, p);
    } else if !alg.Clear? {
      EncryptAt(alg, cs, p, |p| / 8);
      forall j | 0 <= j < |p| / 8
        ensures Block(y, j) == EncryptBlock(alg, StateAt(alg, cs, y, j), Block(p, j)).text
        ensures alg.Cbc? ==> Chained(alg.e, Before(cs, y, j), Block(p, j), Block(y, j))
      {
        EncryptAt(alg, cs, p, j);
        MixedIs(XorAll(Block(p, j), Before(cs, y, j)), Block(p, j), Before(cs, y, j));
      }
    }
  }

  lemma StreamMeans(ks: nat -> Byte, pos: nat, s: seq<Byte>)
    ensures var r := XorAll(s, KeyStream(ks, pos, |s|));
            |r| == |s| && forall i :: 0 <= i < |s| ==> r[i] == Xor(s[i], ks(pos + i))
  {
    hide Xor;
  }

  /** And so does the deciphering. */
  lemma DecryptMeans(alg: Alg, cs: CState, y: seq<Byte>)
    requires Sound(alg) && |y| % BlockLen(alg) == 0
    ensures Deciphered(alg, cs, y, Decrypt(alg, cs, y).text, Decrypt(alg, cs, y).cs)
  {
    hide Xor, Sound, Mixed, XorAll;
    var p := Decrypt(alg, cs, y).text;
    if alg.Rc4? {
      StreamMeans(alg.ks, cs.pos, y);
    } else if !alg.Clear? {
      DecryptAt(alg, cs, y, |y| / 8);
      forall j | 0 <= j < |y| / 8
        ensures Block(p, j) == DecryptBlock(alg, StateAt(alg, cs, y, j), Block(y, j)).text
        ensures alg.Cbc? ==> Mixed(Block(p, j), alg.d(Block(y, j)), Before(cs, y, j))
      {
        DecryptAt(alg, cs, y, j);
        MixedIs(Block(p, j), alg.d(Block(y, j)), Before(cs, y, j));
      }
    }
  }

  /** And there is only one text that is deciphered so. */
  lemma DecipheredOnly(alg: Alg, cs: CState, y: seq<Byte>, p: seq<Byte>, cs': CState)
    requires Sound(alg) && |y| % BlockLen(alg) == 0 && Deciphered(alg, cs, y, p, cs')
    ensures p == Decrypt(alg, cs, y).text && cs' == Decrypt(alg, cs, y).cs
  {
    hide Xor, Sound, Mixed, XorAll, Decrypt;
    var q := Decrypt(alg, cs, y).text;
    DecryptMeans(alg, cs, y);
    if !alg.Clear? && !alg.Rc4? {
      forall j | 0 <= j < |y| / 8
        ensures Block(p, j) == Block(q, j)
      {
        if alg.Cbc? {
          MixedIs(Block(p, j), alg.d(Block(y, j)), Before(cs, y, j));
          MixedIs(Block(q, j), alg.d(Block(y, j)), Before(cs, y, j));
        }
      }
      SameBlocks(p, q);
    }
  }

  lemma SameBlocks(p: seq<Byte>, q: seq<Byte>)
    requires |p| == |q| && |p| % 8 == 0 && forall j :: 0 <= j < |p| / 8 ==> Block(p, j) == Block(q, j)
    ensures p == q
  {
    forall i | 0 <= i < |p|
      ensures p[i] == q[i]
    {
      var j := i / 8;
      assert Block(p, j)[i % 8] == p[i] && Block(q, j)[i % 8] == q[i];
    }
  }

  // ---- one record ----

  /** The four bytes m are the number n, the high byte first. */
  predicate BigEndian(m: seq<Byte>, n: nat) {
    && |m| == 4
    && 0x100_0000 * m[0] as int + 0x1_0000 * m[1] as int + 0x100 * m[2] as int + m[3] == n % 0x1_0000_0000
  }

  /** The digest d of the data s in message mid: the hash of the secret, the data and the number. */
  ghost predicate Digested(c: Conf, mid: nat, s: seq<Byte>, d: seq<Byte>) {
    if c.digesting then exists m: seq<Byte> :: BigEndian(m, mid) && d == c.hf(c.secret + s + m) else d == []
  }

  /** The bytes r are a record with the data s and the padding fill: two bytes of count with the top bit set, or
      two without it and the padding's length; then the digest, the data and the padding, enciphered. */
  ghost predicate RecordOf(c: Conf, w: Way, s: seq<Byte>, fill: seq<Byte>, r: seq<Byte>, w': Way) {
    var n, h := c.diglen + |s| + |fill|, if fill == [] then 2 else 3;
    && |r| == h + n && w'.mid == w.mid + 1
    && (fill == [] ==> 0x100 * r[0] as int + r[1] == 0x8000 + n)
    && (fill != [] ==> r[0] < 0x40 && 0x100 * r[0] as int + r[1] == n && r[2] == |fill|)
    && exists d: seq<Byte> ::
         && Digested(c, w.mid, s + fill, d)
         && Enciphered(if c.encrypting then c.alg else Clear, w.cs, d + (s + fill), r[h..], w'.cs)
  }

  lemma Quarters(n: nat)
    ensures n / 0x1_0000 == n / 256 / 256 && n / 0x100_0000 == n / 256 / 256 / 256
  {}

  /** The bytes of a number up to the fourth are those of its remainder. */
  lemma FourBytes(a: Byte, b: Byte, c: Byte, d: Byte, high: nat, n: nat)
    requires n == 0x1_0000_0000 * high + 0x100_0000 * a as int + 0x1_0000 * b as int + 0x100 * c as int + d
    ensures BigEndian([a, b, c, d], n)
  {
    var low := 0x100_0000 * a as int + 0x1_0000 * b as int + 0x100 * c as int + d;
    assert 0 <= low < 0x1_0000_0000;
  }

  lemma MidSum(n: nat)
    ensures BigEndian(Mid(n), n)
  {
    hide BigEndian;
    Quarters(n);
    var n1 := n / 256;
    var n2 := n1 / 256;
    var n3 := n2 / 256;
    FourBytes(n3 % 256, n2 % 256, n1 % 256, n % 256, n3 / 256, n);
  }

  lemma SameFour(m: seq<Byte>, k: seq<Byte>, n: nat)
    requires BigEndian(m, n) && BigEndian(k, n)
    ensures m == k
  {
    assert m[0] == k[0] && m[1] == k[1] && m[2] == k[2] && m[3] == k[3];
  }

  lemma MidIs(m: seq<Byte>, n: nat)
    ensures BigEndian(m, n) <==> m == Mid(n)
  {
    hide BigEndian, Mid;
    MidSum(n);
    if BigEndian(m, n) {
      SameFour(m, Mid(n), n);
    }
  }

  lemma DigestMeans(c: Conf, mid: nat, s: seq<Byte>, d: seq<Byte>)
    ensures Digested(c, mid, s, d) <==> d == Digest(c, mid, s)
  {
    hide BigEndian, Mid;
    MidIs(Mid(mid), mid);
    if c.digesting && Digested(c, mid, s, d) {
      var m: seq<Byte> :| BigEndian(m, mid) && d == c.hf(c.secret + s + m);
      MidIs(m, mid);
    }
  }

  lemma SealMeans(c: Conf, w: Way, p: seq<Byte>)
    requires Sound(c.alg) && |p| % BlockSize(c) == 0
    ensures Enciphered(if c.encrypting then c.alg else Clear, w.cs, p, Seal(c, w, p).text, Seal(c, w, p).cs)
  {
    hide Sound, Encrypt, Chained;
    if c.encrypting {
      EncryptMeans(c.alg, w.cs, p);
    }
  }

  /** What the code puts on the channel is such a record. */
  lemma RecordMeans(c: Conf, w: Way, s: seq<Byte>, fill: seq<Byte>)
    requires Usable(c) && (c.diglen + |s| + |fill|) % BlockSize(c) == 0
    requires |fill| < 256 && c.diglen + |s| + |fill| < (if fill == [] then 0x8000 else 0x4000)
    ensures RecordOf(c, w, s, fill, Record(c, w, s, fill), After(c, w, s + fill))
  {
    hide Sound, Enciphered, Digested, Digest, Seal, BlockSize;
    var d, t := Digest(c, w.mid, s + fill), s + fill;
    SealedLength(c, w, t);
    DigestMeans(c, w.mid, t, d);
    DigestLength(c, w.mid, t);
    SealMeans(c, w, d + t);
    var n := c.diglen + |s| + |fill|;
    var count, y := Count(n, |fill|), Seal(c, w, d + t).text;
    assert (count + y)[|count|..] == y;
  }

  lemma DigestLength(c: Conf, mid: nat, t: seq<Byte>)
    requires Usable(c)
    ensures |Digest(c, mid, t)| == c.diglen
  {}

  // ---- the records of a write ----

  /** How much of n bytes goes into the next record, and with how much padding: all that its count can hold, with
      the cipher's blocks filled. */
  predicate Sized(c: Conf, n: nat, m: nat, pad: nat) {
    if c.encrypting && (c.alg.Ecb? || c.alg.Cbc?) then
      if n + c.diglen > 0x7ff8 then m + c.diglen == 0x7ff8 && pad == 0
      else if n % 8 == 0 then m == n && pad == 0
      else if n + c.diglen > 0x3ff8 then m + c.diglen == 0x3ff8 && pad == 0
      else m == n && pad == 8 - n % 8
    else pad == 0 && if n + c.diglen > 0x7fff then m + c.diglen == 0x7fff else m == n
  }

  datatype Sent = Sent(data: seq<Byte>, fill: seq<Byte>, bytes: seq<Byte>, after: Way)

  /** The bytes out are the records rs, one behind the other, which carry just the data b. */
  ghost predicate Sends(c: Conf, w: Way, b: seq<Byte>, rs: seq<Sent>, out: seq<Byte>, w': Way)
    decreases |rs|
  {
    && rs != []
    && var r := rs[0];
       && RecordOf(c, w, r.data, r.fill, r.bytes, r.after) && Sized(c, |b|, |r.data|, |r.fill|)
       && r.data <= b && r.bytes <= out
       && if r.data == b then |rs| == 1 && out == r.bytes && w' == r.after
          else Sends(c, r.after, b[|r.data|..], rs[1..], out[|r.bytes|..], w')
  }

  lemma TrimSized(c: Conf, n: nat)
    requires c.diglen < 128 && c.diglen % BlockSize(c) == 0
    ensures Sized(c, n, Trim(c, n).m, Trim(c, n).pad)
  {
    hide Max, MaxPad;
    MaxIs(c);
    SameRest(n, c.diglen);
  }

  lemma MaxIs(c: Conf)
    requires c.diglen < 128 && c.diglen % BlockSize(c) == 0
    ensures Max(c) == (if BlockSize(c) == 8 then 0x7ff8 else 0x7fff) - c.diglen
    ensures BlockSize(c) == 8 ==> MaxPad(c) == 0x3ff8 - c.diglen
  {}

  lemma SameRest(n: nat, k: nat)
    ensures k % 8 == 0 ==> (n + k) % 8 == n % 8
  {}

  /** A write sends such records, as large as they can be. */
  lemma {:induction false} WrittenSends(c: Conf, w: Way, b: seq<Byte>, fills: seq<seq<Byte>>) returns (rs: seq<Sent>)
    requires Usable(c)
    ensures Sends(c, w, b, rs, Written(c, w, b, fills).0, Written(c, w, b, fills).1)
    decreases |b|
  {
    hide Record, RecordOf, Sized, After, Fill, Trim, Usable, BlockSize;
    PieceFits(c, |b|);
    TrimSized(c, |b|);
    var p := Trim(c, |b|);
    var fill := Fill(fills, p.pad);
    var data := b[..p.m];
    var r, w' := Record(c, w, data, fill), After(c, w, data + fill);
    RecordMeans(c, w, data, fill);
    var out := Written(c, w, b, fills);
    rs := [Sent(data, fill, r, w')];
    if p.m == |b| {
      assert data == b && out == (r, w');
    } else {
      var fills' := if fills == [] then [] else fills[1..];
      var more := Written(c, w', b[p.m..], fills');
      var rest := WrittenSends(c, w', b[p.m..], fills');
      assert out == (r + more.0, more.1) && out.0[|r|..] == more.0;
      rs := rs + rest;
      assert rs[1..] == rest && rs[0] == Sent(data, fill, r, w');
    }
  }

  // ---- what a reader accepts ----

  /** The length of a record's body, as its count says. */
  function Counted(s: seq<Byte>): nat
    requires |s| >= 2
  {
    if s[0] >= 0x80 then 0x100 * (s[0] - 0x80) as int + s[1] else 0x100 * (s[0] % 0x40) as int + s[1]
  }

  function HeaderLength(s: seq<Byte>): nat
    requires |s| >= 2
  {
    if s[0] >= 0x80 then 2 else 3
  }

  /** How much of a body of n bytes, without the digest, is data. With a digest and no cipher the padding goes only if
      there is more of it than of the digest, and then less goes than should. */
  function DataLength(c: Conf, n: int, pad: nat): int {
    if c.digesting && !c.encrypting then if pad > c.diglen then n - pad else n - c.diglen else n - c.diglen - pad
  }

  /** The body y of a record carries the data t: it is deciphered as p, and the digest at the head of p is that of
      all behind it. */
  ghost predicate BodyAccepted(c: Conf, w: Way, y: seq<Byte>, pad: nat, t: seq<Byte>, w': Way) {
    && c.diglen <= |y| && 0 <= DataLength(c, |y|, pad) <= |y| - c.diglen
    && (c.encrypting && (c.alg.Ecb? || c.alg.Cbc?) ==> |y| % 8 == 0) && w'.mid == w.mid + 1
    && exists p: seq<Byte> ::
         && |p| == |y| && Deciphered(if c.encrypting then c.alg else Clear, w.cs, y, p, w'.cs)
         && Digested(c, w.mid, p[c.diglen..], p[..c.diglen])
         && t == p[c.diglen..][..DataLength(c, |y|, pad)]
  }

  /** The head of s is a record of len bytes that carries the data t: its body is there, and is accepted. */
  ghost predicate Accepted(c: Conf, w: Way, s: seq<Byte>, len: nat, t: seq<Byte>, w': Way) {
    && |s| >= 2 && len == HeaderLength(s) + Counted(s) <= |s|
    && var pad := if s[0] >= 0x80 then 0 else s[2];
       pad <= Counted(s) && BodyAccepted(c, w, s[HeaderLength(s)..len], pad, t, w')
  }

  lemma OpenMeans(c: Conf, w: Way, y: seq<Byte>, p: seq<Byte>, cs': CState)
    requires Sound(c.alg) && |y| % BlockSize(c) == 0
    ensures Deciphered(if c.encrypting then c.alg else Clear, w.cs, y, p, cs') <==> Coded(p, cs') == Open(c, w, y)
    ensures |Open(c, w, y).text| == |y|
  {
    hide Sound, Decrypt, Mixed;
    if c.encrypting {
      DecryptMeans(c.alg, w.cs, y);
      DecryptLength(c.alg, w.cs, y);
      if Deciphered(c.alg, w.cs, y, p, cs') {
        DecipheredOnly(c.alg, w.cs, y, p, cs');
      }
    }
  }

  /** The body alone: what Unwrap finds whole is what is accepted. */
  lemma UnwrapMeans(c: Conf, w: Way, y: seq<Byte>, pad: nat, t: seq<Byte>, w': Way)
    requires Usable(c) && pad <= |y|
    ensures Unwrap(c, w, y, pad) == Whole(|y|, t, w') <==>
            && |y| % BlockSize(c) == 0 && c.diglen <= |y| && w'.mid == w.mid + 1
            && var p := Open(c, w, y).text;
               && |p| == |y| && Digested(c, w.mid, p[c.diglen..], p[..c.diglen]) && w'.cs == Open(c, w, y).cs
               && 0 <= DataLength(c, |y|, pad) <= |y| - c.diglen && t == p[c.diglen..][..DataLength(c, |y|, pad)]
  {
    hide Open, Digest, Digested, Sound;
    if |y| % BlockSize(c) == 0 {
      OpenMeans(c, w, y, Open(c, w, y).text, Open(c, w, y).cs);
      if c.diglen <= |y| {
        var p := Open(c, w, y).text;
        DigestMeans(c, w.mid, p[c.diglen..], p[..c.diglen]);
        DigestNone(c, w.mid, p[c.diglen..]);
      }
    }
  }

  lemma DigestNone(c: Conf, mid: nat, s: seq<Byte>)
    ensures !c.digesting ==> Digest(c, mid, s) == []
  {}

  lemma CountedIs(s: seq<Byte>)
    requires |s| >= 2
    ensures Counted(s) == Length(s) && HeaderLength(s) == Header(s)
  {}

  lemma ParseWhole(c: Conf, w: Way, s: seq<Byte>, len: nat, t: seq<Byte>, w': Way)
    ensures Parse(c, w, s) == Whole(len, t, w') <==>
            && |s| >= 2 && len == Header(s) + Length(s) <= |s| && Padding(s) <= Length(s)
            && Unwrap(c, w, s[Header(s)..len], Padding(s)) == Whole(Length(s), t, w')
  {
    hide Unwrap, Length;
    if |s| >= 2 && Header(s) + Length(s) <= |s| && Padding(s) <= Length(s) {
      UnwrapLength(c, w, s[Header(s)..Header(s) + Length(s)], Padding(s));
    }
  }

  lemma WholeBlocks(c: Conf, n: nat)
    ensures n % BlockSize(c) == 0 <==> (c.encrypting && (c.alg.Ecb? || c.alg.Cbc?) ==> n % 8 == 0)
  {}

  lemma BodyMeans(c: Conf, w: Way, y: seq<Byte>, pad: nat, t: seq<Byte>, w': Way)
    requires Usable(c) && pad <= |y|
    ensures Unwrap(c, w, y, pad) == Whole(|y|, t, w') <==> BodyAccepted(c, w, y, pad, t, w')
  {
    hide Open, Digested, Sound, Deciphered, Unwrap, DataLength;
    WholeBlocks(c, |y|);
    UnwrapMeans(c, w, y, pad, t, w');
    if |y| % BlockSize(c) == 0 {
      var x := Open(c, w, y);
      OpenMeans(c, w, y, x.text, x.cs);
      if BodyAccepted(c, w, y, pad, t, w') {
        var p: seq<Byte> :|
          && |p| == |y| && Deciphered(if c.encrypting then c.alg else Clear, w.cs, y, p, w'.cs)
          && Digested(c, w.mid, p[c.diglen..], p[..c.diglen])
          && t == p[c.diglen..][..DataLength(c, |y|, pad)];
        OpenMeans(c, w, y, p, w'.cs);
      }
    }
  }

  /** Just the records with the right digest are accepted, and their data is what was under it. */
  lemma AcceptedMeans(c: Conf, w: Way, s: seq<Byte>, len: nat, t: seq<Byte>, w': Way)
    requires Usable(c)
    ensures Parse(c, w, s) == Whole(len, t, w') <==> Accepted(c, w, s, len, t, w')
  {
    hide BodyAccepted, Unwrap, Length, Counted, Parse, Usable;
    ParseWhole(c, w, s, len, t, w');
    if |s| >= 2 {
      CountedIs(s);
      if len == Header(s) + Length(s) <= |s| && Padding(s) <= Length(s) {
        BodyMeans(c, w, s[Header(s)..len], Padding(s), t, w');
      }
    }
  }
}
