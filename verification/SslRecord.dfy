/**
 The records of `emu/devssl.c`: a count of two bytes, or of three with padding, and behind it a digest
 and the data, enciphered or not, as the connection says.
 */
module SslRecord {
  import opened Octets
  import opened SslCipher

  /** A connection as its ctl file sets it up. The digest is a hash of the secret, the message and the
      number of the message. */
  datatype Conf = Conf(digesting: bool, encrypting: bool, diglen: nat, alg: Alg,
                       hf: seq<Byte> -> seq<Byte>, secret: seq<Byte>)

  function BlockSize(c: Conf): nat { if c.encrypting then BlockLen(c.alg) else 1 }

  /** The most data that a record takes without padding, and with. */
  function Max(c: Conf): int {
    var m := 0x8000 - c.diglen - 1;
    m - m % (if BlockSize(c) == 8 then 8 else 1)
  }

  function MaxPad(c: Conf): int {
    if BlockSize(c) == 1 then Max(c)
    else var m := 0x4000 - c.diglen - 1; m - m % 8
  }

  /** What `parsehashalg` and `parseencryptalg` can set up, with digests that fit the cipher's blocks. */
  ghost predicate Usable(c: Conf) {
    && c.diglen < 128 && (c.digesting <==> c.diglen > 0) && c.diglen % BlockSize(c) == 0
    && Sound(c.alg) && (c.digesting ==> forall s {:trigger c.hf(s)} :: |c.hf(s)| == c.diglen)
  }

  /** One direction of a connection: the cipher's state and the number of the next message. */
  datatype Way = Way(cs: CState, mid: nat)

  // ---- writing ----

  datatype Piece = Piece(m: nat, pad: nat)

  /** How much of n bytes the next record takes, and how it is padded. */
  function Trim(c: Conf, n: nat): Piece
    requires c.diglen < 128
  {
    var b := BlockSize(c);
    if n > Max(c) then Piece(Max(c), 0)
    else if b != 1 && (n + c.diglen) % b != 0 then
      if n > MaxPad(c) then Piece(MaxPad(c), 0) else Piece(n, b - (n + c.diglen) % b)
    else Piece(n, 0)
  }

  /** The record takes something, fills the cipher's blocks, and its length fits its count. */
  lemma TrimFits(c: Conf, n: nat)
    requires c.diglen < 128 && c.diglen % BlockSize(c) == 0
    ensures var p := Trim(c, n);
            && p.m <= n && (n > 0 ==> p.m > 0) && p.pad < BlockSize(c) <= 8
            && (p.m + c.diglen + p.pad) % BlockSize(c) == 0
            && p.m + c.diglen + p.pad < (if p.pad == 0 then 0x8000 else 0x4000)
  {}

  /** Every record fills whole blocks of the cipher if and only if the digest does. */
  lemma BlocksFilled(c: Conf)
    requires c.diglen < 128
    ensures (forall n: nat :: var p := Trim(c, n); (p.m + c.diglen + p.pad) % BlockSize(c) == 0)
            <==> c.diglen % BlockSize(c) == 0
  {
    if c.diglen % BlockSize(c) == 0 {
      forall n: nat
        ensures var p := Trim(c, n); (p.m + c.diglen + p.pad) % BlockSize(c) == 0
      {
        TrimFits(c, n);
      }
    } else {
      var p := Trim(c, Max(c) + 1);
      assert p == Piece(Max(c), 0) && Max(c) % 8 == 0;
      assert (p.m + c.diglen + p.pad) % BlockSize(c) != 0;
    }
  }

  function Mid(n: nat): seq<Byte> { [n / 0x100_0000 % 256, n / 0x1_0000 % 256, n / 256 % 256, n % 256] }

  function Digest(c: Conf, mid: nat, s: seq<Byte>): seq<Byte> {
    if c.digesting then c.hf(c.secret + s + Mid(mid)) else []
  }

  /** The digest, if any, with the data and the padding behind it. */
  function Body(c: Conf, mid: nat, s: seq<Byte>): seq<Byte> { Digest(c, mid, s) + s }

  function Seal(c: Conf, w: Way, body: seq<Byte>): Coded {
    if c.encrypting then Encrypt(c.alg, w.cs, body) else Coded(body, w.cs)
  }

  function Open(c: Conf, w: Way, s: seq<Byte>): Coded {
    if c.encrypting then Decrypt(c.alg, w.cs, s) else Coded(s, w.cs)
  }

  /** The count of a record. */
  function Count(len: nat, pad: nat): seq<Byte>
    requires len < (if pad == 0 then 0x8000 else 0x4000) && pad < 256
  {
    if pad == 0 then [len / 256 + 0x80, len % 256] else [len / 256, len % 256, pad]
  }

  /** A record with the data s and the padding fill. */
  function Record(c: Conf, w: Way, s: seq<Byte>, fill: seq<Byte>): seq<Byte>
    requires c.diglen + |s| + |fill| < (if fill == [] then 0x8000 else 0x4000) && |fill| < 256
  {
    Count(c.diglen + |s| + |fill|, |fill|) + Seal(c, w, Body(c, w.mid, s + fill)).text
  }

  function After(c: Conf, w: Way, s: seq<Byte>): Way { Way(Seal(c, w, Body(c, w.mid, s)).cs, w.mid + 1) }

  // ---- reading ----

  datatype Fault = BadPad | TooShort | BadDigest | Panic

  /** What is at the head of a stream: part of a record, one that is no good, or one of `len` bytes. */
  datatype Found = Partial | Wrong(f: Fault) | Whole(len: nat, s: seq<Byte>, w: Way)

  function Header(s: seq<Byte>): nat
    requires |s| >= 2
  {
    if s[0] >= 0x80 then 2 else 3
  }

  function Length(s: seq<Byte>): nat
    requires |s| >= 2
  {
    var high: int := s[0];
    if high >= 0x80 then (high - 0x80) * 256 + s[1] else high % 0x40 * 256 + s[1]
  }

  function Padding(s: seq<Byte>): nat
    requires |s| >= 3 || (|s| == 2 && s[0] >= 0x80)
  {
    if s[0] >= 0x80 then 0 else s[2]
  }

  /** How much of the data t is left without the padding, in a body of n bytes. With a digest alone, the
      padding is counted from the end of the body with the digest before it. */
  function Kept(c: Conf, n: nat, t: seq<Byte>, pad: nat): int {
    if c.digesting && !c.encrypting then if n - pad < |t| && pad > 0 then n - pad else |t| else |t| - pad
  }

  /** The body of a record of known padding. */
  function Unwrap(c: Conf, w: Way, s: seq<Byte>, pad: nat): Found
    requires pad <= |s|
  {
    if c.encrypting && |s| % BlockLen(c.alg) != 0 then Wrong(TooShort)
    else
      var x := Open(c, w, s);
      if |x.text| < c.diglen then Wrong(TooShort)
      else
        var t := x.text[c.diglen..];
        if c.digesting && Digest(c, w.mid, t) != x.text[..c.diglen] then Wrong(BadDigest)
        else if Kept(c, |s|, t, pad) < 0 then Wrong(Panic)
        else Whole(|s|, t[..Kept(c, |s|, t, pad)], Way(x.cs, w.mid + 1))
  }

  function Parse(c: Conf, w: Way, s: seq<Byte>): Found {
    if |s| < 2 || |s| < Header(s) + Length(s) then Partial
    else if Padding(s) > Length(s) then Wrong(BadPad)
    else
      match Unwrap(c, w, s[Header(s)..Header(s) + Length(s)], Padding(s))
      case Whole(n, t, w') => Whole(Header(s) + n, t, w')
      case bad => bad
  }

  // ---- a record read back ----

  lemma CountRead(len: nat, pad: nat, s: seq<Byte>)
    requires len < (if pad == 0 then 0x8000 else 0x4000) && pad < 256
    ensures var t := Count(len, pad) + s;
            && |t| >= 2 && Header(t) == |Count(len, pad)| && Length(t) == len
            && (|t| >= 3 || t[0] >= 0x80) && (pad == 0 ==> t[0] >= 0x80) && (pad != 0 ==> t[0] < 0x80 && t[2] == pad)
  {}

  /** The text of a sealed body is as long, and opens to it. */
  lemma SealOpens(c: Conf, w: Way, body: seq<Byte>)
    requires Sound(c.alg) && |body| % BlockSize(c) == 0
    ensures var y := Seal(c, w, body);
            |y.text| == |body| && Open(c, w, y.text) == Coded(body, y.cs)
  {
    hide Encrypt, Decrypt, Sound;
    if c.encrypting { CodeUndone(c.alg, w.cs, body); }
  }

  /** The reader in step with the writer finds just the data of the record, whatever follows it, and is in
      step with the writer again. */
  lemma RecordRead(c: Conf, w: Way, s: seq<Byte>, fill: seq<Byte>, rest: seq<Byte>)
    requires Usable(c) && (c.diglen + |s| + |fill|) % BlockSize(c) == 0
    requires |fill| < 256 && c.diglen + |s| + |fill| < (if fill == [] then 0x8000 else 0x4000)
    requires fill != [] ==> BlockSize(c) != 1
    ensures var r := Record(c, w, s, fill);
            Parse(c, w, r + rest) == Whole(|r|, s, After(c, w, s + fill))
  {
    hide Seal, Body, Mid, Digest, Unwrap, Count, Header, Length, Padding, BlockSize, Parse, Usable;
    var len, pad, y := c.diglen + |s| + |fill|, |fill|, Seal(c, w, Body(c, w.mid, s + fill)).text;
    SealedLength(c, w, s + fill);
    var r := Record(c, w, s, fill);
    assert r + rest == Count(len, pad) + (y + rest);
    CountRead(len, pad, y + rest);
    PaddingRead(len, pad, y + rest);
    BodyOpened(c, w, s, fill);
    Between(Count(len, pad), y, rest);
    ParseIs(c, w, r + rest);
  }

  lemma Between(a: seq<Byte>, b: seq<Byte>, d: seq<Byte>)
    ensures (a + (b + d))[|a|..|a| + |b|] == b
  {}

  lemma ParseIs(c: Conf, w: Way, u: seq<Byte>)
    requires |u| >= 2 && |u| >= Header(u) + Length(u) && (|u| >= 3 || u[0] >= 0x80) && Padding(u) <= Length(u)
    ensures var p := Unwrap(c, w, u[Header(u)..Header(u) + Length(u)], Padding(u));
            p.Whole? ==> Parse(c, w, u) == Whole(Header(u) + p.len, p.s, p.w)
  {
    hide Unwrap, Length;
  }

  lemma PaddingRead(len: nat, pad: nat, s: seq<Byte>)
    requires len < (if pad == 0 then 0x8000 else 0x4000) && pad < 256
    ensures var t := Count(len, pad) + s;
            |t| >= 2 && (|t| >= 3 || t[0] >= 0x80) && Header(t) == |Count(len, pad)| && Header(t) <= |t|
            && (|t| >= 3 || |t| == 2) && Padding(t) == pad
  {}

  lemma SealedLength(c: Conf, w: Way, t: seq<Byte>)
    requires Usable(c) && (c.diglen + |t|) % BlockSize(c) == 0
    ensures |Seal(c, w, Body(c, w.mid, t)).text| == c.diglen + |t|
  {
    hide Encrypt, Decrypt, Sound, Seal, Open, Mid;
    SealOpens(c, w, Body(c, w.mid, t));
  }

  /** The body of a record, opened by a reader in step, is whole. */
  lemma BodyOpened(c: Conf, w: Way, s: seq<Byte>, fill: seq<Byte>)
    requires Usable(c) && (c.diglen + |s| + |fill|) % BlockSize(c) == 0 && (fill != [] ==> BlockSize(c) != 1)
    ensures var t := s + fill;
            var y := Seal(c, w, Body(c, w.mid, t)).text;
            |fill| <= |y| && Unwrap(c, w, y, |fill|) == Whole(|y|, s, After(c, w, t))
  {
    hide Encrypt, Decrypt, Sound, Seal, Open, Mid;
    var t := s + fill;
    var body := Body(c, w.mid, t);
    assert |Digest(c, w.mid, t)| == c.diglen;
    SealOpens(c, w, body);
    assert body[..c.diglen] == Digest(c, w.mid, t) && body[c.diglen..] == t;
    assert t[..|t| - |fill|] == s;
  }

  /** Of part of a record, nothing is taken. */
  lemma RecordPart(c: Conf, w: Way, s: seq<Byte>, fill: seq<Byte>, k: nat)
    requires Usable(c) && (c.diglen + |s| + |fill|) % BlockSize(c) == 0
    requires |fill| < 256 && c.diglen + |s| + |fill| < (if fill == [] then 0x8000 else 0x4000)
    requires k < |Record(c, w, s, fill)|
    ensures Parse(c, w, Record(c, w, s, fill)[..k]) == Partial
  {
    hide Encrypt, Decrypt, Sound, Seal, Open, Mid;
    var len, pad := c.diglen + |s| + |fill|, |fill|;
    var body := Body(c, w.mid, s + fill);
    assert |Digest(c, w.mid, s + fill)| == c.diglen;
    SealOpens(c, w, body);
    var r := Record(c, w, s, fill);
    CountRead(len, pad, Seal(c, w, body).text);
    if k >= 2 {
      assert r[..k][0] == r[0] && r[..k][1] == r[1];
    }
  }

  /** More bytes change nothing about a record found. */
  lemma ParseStable(c: Conf, w: Way, s: seq<Byte>, rest: seq<Byte>)
    requires !Parse(c, w, s).Partial?
    ensures Parse(c, w, s + rest) == Parse(c, w, s)
    ensures Parse(c, w, s).Whole? ==> 2 <= Parse(c, w, s).len <= |s|
  {
    hide Unwrap;
    var h, n := Header(s), Length(s);
    assert (s + rest)[0] == s[0] && (s + rest)[1] == s[1];
    assert (s + rest)[h..h + n] == s[h..h + n];
    UnwrapLength(c, w, s[h..h + n], if Padding(s) <= n then Padding(s) else 0);
  }

  lemma UnwrapLength(c: Conf, w: Way, s: seq<Byte>, pad: nat)
    requires pad <= |s|
    ensures !Unwrap(c, w, s, pad).Partial? && (Unwrap(c, w, s, pad).Whole? ==> Unwrap(c, w, s, pad).len == |s|)
  {}

  // ---- the stream of data ----

  /** The data in the whole records at the head of a stream. */
  function Plain(c: Conf, w: Way, s: seq<Byte>): seq<Byte>
    decreases |s|
  {
    match Parse(c, w, s)
    case Whole(n, t, w') => if 0 < n <= |s| then t + Plain(c, w', s[n..]) else []
    case _ => []
  }

  /** What writing b puts on the channel, with any bytes for padding, and the state after it. An empty block
      makes one record. */
  function Written(c: Conf, w: Way, b: seq<Byte>, fills: seq<seq<Byte>>): (seq<Byte>, Way)
    requires Usable(c)
    decreases |b|
  {
    TrimFits(c, |b|);
    var p := Trim(c, |b|);
    var fill := Fill(fills, p.pad);
    var r, w' := Record(c, w, b[..p.m], fill), After(c, w, b[..p.m] + fill);
    if p.m == |b| then (r, w')
    else
      var more := Written(c, w', b[p.m..], if fills == [] then [] else fills[1..]);
      (r + more.0, more.1)
  }

  /** The padding comes from `randfill`, which may put anything there. */
  function Fill(fills: seq<seq<Byte>>, n: nat): (s: seq<Byte>)
    ensures |s| == n
  {
    if fills != [] && |fills[0]| == n then fills[0] else seq(n, i => 0)
  }

  /** What was written reads back, and then what follows, in step again. */
  lemma {:induction false} WrittenRead(c: Conf, w: Way, b: seq<Byte>, fills: seq<seq<Byte>>, rest: seq<Byte>)
    requires Usable(c)
    ensures var (r, w') := Written(c, w, b, fills);
            Plain(c, w, r + rest) == b + Plain(c, w', rest)
    decreases |b|
  {
    hide Record, After, Parse, Fill, Trim, Usable, BlockSize;
    PieceFits(c, |b|);
    var p := Trim(c, |b|);
    var fill := Fill(fills, p.pad);
    var r, w' := Record(c, w, b[..p.m], fill), After(c, w, b[..p.m] + fill);
    if p.m == |b| {
      assert b[..p.m] == b;
      ReadsOne(c, w, b, fill, rest);
    } else {
      var fills' := if fills == [] then [] else fills[1..];
      var more := Written(c, w', b[p.m..], fills');
      ReadsOne(c, w, b[..p.m], fill, more.0 + rest);
      WrittenRead(c, w', b[p.m..], fills', rest);
      assert r + (more.0 + rest) == (r + more.0) + rest;
      assert b[..p.m] + (b[p.m..] + Plain(c, more.1, rest)) == b + Plain(c, more.1, rest) by {
        assert b == b[..p.m] + b[p.m..];
      }
    }
  }

  lemma PieceFits(c: Conf, n: nat)
    requires Usable(c)
    ensures c.diglen < 128 && c.diglen % BlockSize(c) == 0
    ensures var p := Trim(c, n);
            && p.m <= n && (n > 0 ==> p.m > 0) && p.pad < 8 && (c.diglen + p.m + p.pad) % BlockSize(c) == 0
            && c.diglen + p.m + p.pad < (if p.pad == 0 then 0x8000 else 0x4000) && (p.pad != 0 ==> BlockSize(c) != 1)
  {
    TrimFits(c, n);
  }

  lemma ReadsOne(c: Conf, w: Way, s: seq<Byte>, fill: seq<Byte>, rest: seq<Byte>)
    requires Usable(c) && (c.diglen + |s| + |fill|) % BlockSize(c) == 0
    requires |fill| < 256 && c.diglen + |s| + |fill| < (if fill == [] then 0x8000 else 0x4000)
    requires fill != [] ==> BlockSize(c) != 1
    ensures Plain(c, w, Record(c, w, s, fill) + rest) == s + Plain(c, After(c, w, s + fill), rest)
  {
    hide Record, After, Parse;
    var r := Record(c, w, s, fill);
    RecordRead(c, w, s, fill, rest);
    RecordSize(c, w, s, fill);
    assert (r + rest)[|r|..] == rest;
  }

  lemma RecordSize(c: Conf, w: Way, s: seq<Byte>, fill: seq<Byte>)
    requires |fill| < 256 && c.diglen + |s| + |fill| < (if fill == [] then 0x8000 else 0x4000)
    ensures |Record(c, w, s, fill)| > 0
  {
    hide Seal;
  }

  /** No record of the stream is bad. */
  ghost predicate Good(c: Conf, w: Way, s: seq<Byte>)
    decreases |s|
  {
    match Parse(c, w, s)
    case Partial => true
    case Wrong(_) => false
    case Whole(n, t, w') => 0 < n <= |s| && Good(c, w', s[n..])
  }

  lemma {:induction false} WrittenGood(c: Conf, w: Way, b: seq<Byte>, fills: seq<seq<Byte>>, rest: seq<Byte>)
    requires Usable(c) && Good(c, Written(c, w, b, fills).1, rest)
    ensures Good(c, w, Written(c, w, b, fills).0 + rest)
    decreases |b|
  {
    hide Record, After, Parse, Fill, Trim, Usable, BlockSize;
    PieceFits(c, |b|);
    var p := Trim(c, |b|);
    var fill := Fill(fills, p.pad);
    var r, w' := Record(c, w, b[..p.m], fill), After(c, w, b[..p.m] + fill);
    RecordSize(c, w, b[..p.m], fill);
    if p.m == |b| {
      RecordRead(c, w, b[..p.m], fill, rest);
      assert (r + rest)[|r|..] == rest;
    } else {
      var fills' := if fills == [] then [] else fills[1..];
      var more := Written(c, w', b[p.m..], fills');
      WrittenGood(c, w', b[p.m..], fills', rest);
      RecordRead(c, w, b[..p.m], fill, more.0 + rest);
      assert r + (more.0 + rest) == (r + more.0) + rest;
      assert ((r + more.0) + rest)[|r|..] == more.0 + rest;
    }
  }

  // ---- several writes ----

  /** The data of several writes, one after the other. */
  function Join(ws: seq<seq<Byte>>): seq<Byte> {
    if ws == [] then [] else ws[0] + Join(ws[1..])
  }

  function AllWritten(c: Conf, w: Way, ws: seq<seq<Byte>>, fills: seq<seq<seq<Byte>>>): (seq<Byte>, Way)
    requires Usable(c) && |fills| == |ws|
    decreases |ws|
  {
    if ws == [] then ([], w)
    else
      var one := Written(c, w, ws[0], fills[0]);
      var more := AllWritten(c, one.1, ws[1..], fills[1..]);
      (one.0 + more.0, more.1)
  }

  /** A reader in step finds all that was written, and no bad record. */
  lemma {:induction false} AllRead(c: Conf, w: Way, ws: seq<seq<Byte>>, fills: seq<seq<seq<Byte>>>)
    requires Usable(c) && |fills| == |ws|
    ensures var s := AllWritten(c, w, ws, fills).0; Plain(c, w, s) == Join(ws) && Good(c, w, s)
    decreases |ws|
  {
    hide Written, Usable;
    if ws == [] {
      NothingRead(c, w);
    } else {
      var one := Written(c, w, ws[0], fills[0]);
      var more := AllWritten(c, one.1, ws[1..], fills[1..]);
      AllRead(c, one.1, ws[1..], fills[1..]);
      WrittenRead(c, w, ws[0], fills[0], more.0);
      WrittenGood(c, w, ws[0], fills[0], more.0);
    }
  }

  lemma NothingRead(c: Conf, w: Way)
    ensures Parse(c, w, []) == Partial && Plain(c, w, []) == [] && Good(c, w, [])
  {}
}
