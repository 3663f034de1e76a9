/**
 A connection of `emu/devssl.c`: writing splits data into records; reading collects what the channel
 brings, in blocks of any size, takes one record at a time, and gives out as much as is asked for.
 */
module SslStream {
  import opened Octets
  import opened SslCipher
  import opened SslRecord

  type Block = seq<Byte>

  /** The bytes of a list of blocks. */
  function Flat(l: seq<Block>): seq<Byte> {
    if l == [] then [] else l[0] + Flat(l[1..])
  }

  lemma {:induction false} FlatJoin(l: seq<Block>, m: seq<Block>)
    ensures Flat(l + m) == Flat(l) + Flat(m)
  {
    if l == [] {
      assert l + m == m;
    } else {
      assert (l + m)[1..] == l[1..] + m;
      FlatJoin(l[1..], m);
      assert l[0] + (Flat(l[1..]) + Flat(m)) == (l[0] + Flat(l[1..])) + Flat(m);
    }
  }

  lemma FlatOne(b: Block)
    ensures Flat([b]) == b && Flat([]) == []
  {
    assert Flat([b]) == b + Flat([b][1..]);
  }

  lemma FlatSplit(l: seq<Block>, i: nat)
    requires i <= |l|
    ensures Flat(l) == Flat(l[..i]) + Flat(l[i..])
    ensures i < |l| ==> Flat(l[i..]) == l[i] + Flat(l[i + 1..]) && Flat(l[..i + 1]) == Flat(l[..i]) + l[i]
  {
    assert l == l[..i] + l[i..];
    FlatJoin(l[..i], l[i..]);
    if i < |l| {
      assert l[i..][1..] == l[i + 1..] && l[..i + 1] == l[..i] + [l[i]];
      FlatJoin(l[..i], [l[i]]);
      FlatOne(l[i]);
    }
  }

  // ---- lists of blocks ----

  /** `consume`: the first n bytes, taken off the list. */
  method Consume(l: seq<Block>, n: nat) returns (p: seq<Byte>, l': seq<Block>)
    requires n <= |Flat(l)|
    ensures p == Flat(l)[..n] && Flat(l') == Flat(l)[n..]
  {
    hide Flat;
    p, l' := [], l;
    var left := n;
    assert [] + Flat(l) == Flat(l);
    while l' != [] && left > 0
      invariant 0 <= left <= n && left <= |Flat(l')| && |p| == n - left && p + Flat(l') == Flat(l)
      decreases |l'|, left
    {
      var b := l'[0];
      var i := if |b| > left then left else |b|;
      NoneBefore(l');
      TakeSome(p, b, Flat(l'[1..]), i);
      p, left := p + b[..i], left - i;
      if i < |b| {
        NoneBefore([b[i..]] + l'[1..]);
        l' := [b[i..]] + l'[1..];
      } else {
        l' := l'[1..];
      }
    }
    FlatOne([]);
    assert p + Flat(l') == Flat(l) && left == 0;
  }

  lemma NoneBefore(l: seq<Block>)
    requires l != []
    ensures Flat(l) == l[0] + Flat(l[1..])
  {}

  lemma TakeSome(p: seq<Byte>, b: Block, f: seq<Byte>, i: nat)
    requires i <= |b|
    ensures p + (b + f) == (p + b[..i]) + (b[i..] + f)
    ensures i == |b| ==> b[i..] + f == f
  {
    assert b == b[..i] + b[i..];
  }

  /** The first n bytes of s, or all if there are fewer, and the rest. */
  predicate Halved(s: seq<Byte>, n: nat, first: seq<Byte>, rest: seq<Byte>) {
    first + rest == s && |first| <= n && (|first| < n ==> rest == [])
  }

  lemma CutAt(s: seq<Byte>, n: nat)
    ensures Halved(s, n, s[..Least(n, |s|)], s[Least(n, |s|)..])
  {}

  function Least(a: nat, b: nat): nat { if a <= b then a else b }

  /** `qremove`: at most n bytes, taken off the list; the rest stays, or is thrown away. */
  method Qremove(l: seq<Block>, n: nat, discard: bool) returns (first: seq<Block>, l': seq<Block>)
    ensures var m := Least(n, |Flat(l)|);
            Flat(first) == Flat(l)[..m] && Flat(l') == if discard then [] else Flat(l)[m..]
    ensures n > |Flat(l)| ==> l' == []
  {
    FlatSplit(l, 0);
    FlatOne([]);
    var k, left := 0, n;
    while k < |l|
      invariant 0 <= k <= |l| && 0 <= left <= n && |Flat(l[..k])| == n - left
    {
      FlatSplit(l, k);
      FlatSplit(l, k + 1);
      var b := l[k];
      if |b| == left {
        first, l' := l[..k + 1], if discard then [] else l[k + 1..];
        assert Flat(l)[..n] == Flat(first) && Flat(l)[n..] == Flat(l[k + 1..]);
        return;
      } else if |b| > left {
        first, l' := l[..k] + [b[..left]], if discard then [] else [b[left..]] + l[k + 1..];
        TakePart(l, k, left);
        return;
      }
      left := left - |b|;
      k := k + 1;
    }
    assert l[..k] == l && l[k..] == [];
    first, l' := l, [];
  }

  lemma TakePart(l: seq<Block>, k: nat, left: nat)
    requires k < |l| && left <= |l[k]|
    ensures var n := |Flat(l[..k])| + left;
            && n <= |Flat(l)|
            && Flat(l[..k] + [l[k][..left]]) == Flat(l)[..n]
            && Flat([l[k][left..]] + l[k + 1..]) == Flat(l)[n..]
  {
    FlatSplit(l, k);
    FlatJoin(l[..k], [l[k][..left]]);
    FlatOne(l[k][..left]);
    FlatJoin([l[k][left..]], l[k + 1..]);
    FlatOne(l[k][left..]);
    var a, b, c := Flat(l[..k]), l[k], Flat(l[k + 1..]);
    assert b == b[..left] + b[left..];
    assert a + (b + c) == (a + b[..left]) + (b[left..] + c);
  }

  /** `pullupblock`: at least n bytes in the first block, if there are as many. */
  method PullUp(l: seq<Block>, n: nat) returns (ok: bool, l': seq<Block>)
    requires l != []
    ensures ok <==> |Flat(l)| >= n
    ensures ok ==> l' != [] && |l'| <= |l| && |l'[0]| >= n && Flat(l') == Flat(l) && (|l[0]| < n ==> |l'[0]| == n)
  {
    l' := l;
    while |l'[0]| < n && |l'| > 1
      invariant l' != [] && |l'| <= |l| && Flat(l') == Flat(l) && (|l[0]| < n ==> |l'[0]| <= n)
      invariant (|l[0]| >= n ==> l' == l)
      decreases |l'|, n - |l'[0]|
    {
      var b, c, i := l'[0], l'[1], n - |l'[0]|;
      ghost var rest := l'[2..];
      PullParts(b, c, rest, if |c| > i then i else |c|);
      assert l' == [b, c] + rest && l'[1..][1..] == rest;
      if |c| > i {
        l' := [b + c[..i]] + ([c[i..]] + l'[2..]);
        return true, l';
      }
      assert c[..|c|] == c;
      l' := [b + c] + l'[2..];
    }
    ok := |l'[0]| >= n;
    FlatSplit(l', 0);
    assert |l'| == 1 ==> l'[1..] == [];
  }

  lemma PullParts(b: Block, c: Block, rest: seq<Block>, i: nat)
    requires i <= |c|
    ensures Flat([b, c] + rest) == Flat([b + c[..i]] + ([c[i..]] + rest))
    ensures i == |c| ==> Flat([b, c] + rest) == Flat([b + c] + rest)
  {
    var l, m := [b, c] + rest, [b + c[..i]] + ([c[i..]] + rest);
    assert l[1..] == [c] + rest && ([c] + rest)[1..] == rest && m[1..] == [c[i..]] + rest && m[1..][1..] == rest;
    assert ([b + c] + rest)[1..] == rest;
    var f := Flat(rest);
    assert c == c[..i] + c[i..];
    assert b + (c + f) == (b + c[..i]) + (c[i..] + f) == (b + c) + f;
  }

  // ---- ciphers in place ----

  lemma DecryptNext(alg: Alg, cs: CState, b: Block, p: nat)
    requires (alg.Ecb? || alg.Cbc?) && p + 8 <= |b|
    ensures var x := DecryptBlock(alg, cs, b[p..p + 8]);
            var rest := Decrypt(alg, x.cs, b[p + 8..]);
            Decrypt(alg, cs, b[p..]) == Coded(x.text + rest.text, rest.cs)
  {
    hide DecryptBlock;
    assert b[p..][..8] == b[p..p + 8] && b[p..][8..] == b[p + 8..];
  }

  lemma EncryptNext(alg: Alg, cs: CState, b: Block, p: nat)
    requires (alg.Ecb? || alg.Cbc?) && p + 8 <= |b|
    ensures var x := EncryptBlock(alg, cs, b[p..p + 8]);
            var rest := Encrypt(alg, x.cs, b[p + 8..]);
            Encrypt(alg, cs, b[p..]) == Coded(x.text + rest.text, rest.cs)
  {
    hide EncryptBlock;
    assert b[p..][..8] == b[p..p + 8] && b[p..][8..] == b[p + 8..];
  }

  lemma CodeNothing(alg: Alg, cs: CState)
    ensures Decrypt(alg, cs, []) == Coded([], cs) && Encrypt(alg, cs, []) == Coded([], cs)
  {}

  /** `decryptb` on one block: eight bytes at a time, or all at once. */
  method DecryptOne(alg: Alg, cs: CState, b: Block) returns (b': Block, cs': CState)
    requires Sound(alg) && |b| % BlockLen(alg) == 0 && alg != Alg.Clear
    ensures Coded(b', cs') == Decrypt(alg, cs, b) && |b'| == |b|
  {
    hide Sound, DecryptBlock, Decrypt;
    DecryptLength(alg, cs, b);
    if alg.Rc4? {
      var x := Decrypt(alg, cs, b);
      return x.text, x.cs;
    }
    ghost var all := Decrypt(alg, cs, b);
    b', cs' := [], cs;
    var p := 0;
    assert b[0..] == b && [] + all.text == all.text;
    while p < |b|
      invariant 0 <= p <= |b| && p % 8 == 0
      invariant var rest := Decrypt(alg, cs', b[p..]); all.text == b' + rest.text && all.cs == rest.cs
    {
      var x := DecryptBlock(alg, cs', b[p..p + 8]);
      DecryptNext(alg, cs', b, p);
      Regroup(b', x.text, Decrypt(alg, x.cs, b[p + 8..]).text);
      b', cs', p := b' + x.text, x.cs, p + 8;
    }
    CodeNothing(alg, cs');
    assert b[p..] == [] && b' + [] == b';
  }

  lemma Regroup(a: seq<Byte>, b: seq<Byte>, c: seq<Byte>)
    ensures a + (b + c) == (a + b) + c
  {}

  /** `encryptb`, from the offset on. */
  method EncryptB(alg: Alg, cs: CState, b: Block, offset: nat) returns (b': Block, cs': CState)
    requires Sound(alg) && offset <= |b| && (|b| - offset) % BlockLen(alg) == 0 && alg != Alg.Clear
    ensures var y := Encrypt(alg, cs, b[offset..]); b' == b[..offset] + y.text && cs' == y.cs
  {
    hide Sound, EncryptBlock, Encrypt;
    if alg.Rc4? {
      var y := Encrypt(alg, cs, b[offset..]);
      return b[..offset] + y.text, y.cs;
    }
    ghost var all := Encrypt(alg, cs, b[offset..]);
    var done: seq<Byte> := [];
    cs' := cs;
    var p := offset;
    assert [] + all.text == all.text;
    while p < |b|
      invariant offset <= p <= |b| && (|b| - p) % 8 == 0
      invariant var rest := Encrypt(alg, cs', b[p..]); all.text == done + rest.text && all.cs == rest.cs
    {
      var y := EncryptBlock(alg, cs', b[p..p + 8]);
      EncryptNext(alg, cs', b, p);
      Regroup(done, y.text, Encrypt(alg, y.cs, b[p + 8..]).text);
      done, cs', p := done + y.text, y.cs, p + 8;
    }
    CodeNothing(alg, cs');
    assert b[p..] == [] && done + [] == done;
    b' := b[..offset] + done;
  }

  /** One round of `decryptb`: the first block, brought to a multiple of the cipher's length. */
  method DecryptFirst(alg: Alg, cs: CState, left: seq<Block>)
    returns (ok: bool, b: Block, cs': CState, left': seq<Block>, ghost part: seq<Byte>)
    requires Sound(alg) && alg != Alg.Clear && left != []
    ensures ok ==>
              && Flat(left) == part + Flat(left') && |left'| < |left|
              && |b| == |part| && |part| % BlockLen(alg) == 0 && Coded(b, cs') == Decrypt(alg, cs, part)
    ensures !ok ==> |Flat(left)| % BlockLen(alg) != 0
  {
    hide Sound, Decrypt, Flat, BlockLen;
    b, cs', left', part := [], cs, left, [];
    var i := |left[0]| % BlockLen(alg);
    if i != 0 {
      RoundUp(|left[0]|, BlockLen(alg));
      ok, left' := PullUp(left, |left[0]| + BlockLen(alg) - i);
      if !ok {
        FlatSplit(left, 0);
        FlatSplit(left, 1);
        NotWhole(|left[0]|, |Flat(left)|, BlockLen(alg));
        return;
      }
    }
    ok, part := true, left'[0];
    NoneBefore(left');
    b, cs' := DecryptOne(alg, cs, left'[0]);
    left' := left'[1..];
  }

  lemma RoundUp(n: nat, b: nat)
    requires b == 1 || b == 8
    ensures (n + b - n % b) % b == 0
  {}

  lemma NotWhole(n: nat, size: nat, b: nat)
    requires (b == 1 || b == 8) && n % b != 0 && n <= size < n + b - n % b
    ensures size % b != 0
  {}

  /** `decryptb`: block after block. */
  method DecryptB(alg: Alg, cs: CState, l: seq<Block>) returns (ok: bool, l': seq<Block>, cs': CState)
    requires Sound(alg) && alg != Alg.Clear
    ensures ok <==> |Flat(l)| % BlockLen(alg) == 0
    ensures ok ==> Coded(Flat(l'), cs') == Decrypt(alg, cs, Flat(l)) && |Flat(l')| == |Flat(l)|
  {
    hide Sound, Decrypt, Flat, BlockLen;
    FlatOne([]);
    CodeNothing(alg, cs);
    var left := l;
    ok, l', cs' := true, [], cs;
    ghost var head: seq<Byte> := [];
    while left != []
      invariant head + Flat(left) == Flat(l) && |head| % BlockLen(alg) == 0
      invariant |Flat(l')| == |head| && Coded(Flat(l'), cs') == Decrypt(alg, cs, head)
      decreases |left|
    {
      var b, c, rest;
      ghost var part;
      ok, b, c, rest, part := DecryptFirst(alg, cs', left);
      if !ok {
        SumWhole(|head|, |Flat(left)|, BlockLen(alg));
        return;
      }
      SumWhole(|head|, |part|, BlockLen(alg));
      DecryptJoin(alg, cs, head, part);
      Regroup(head, part, Flat(rest));
      FlatJoin(l', [b]);
      FlatOne(b);
      l', cs', left, head := l' + [b], c, rest, head + part;
    }
    assert head + [] == head;
  }

  lemma SumWhole(n: nat, m: nat, b: nat)
    requires (b == 1 || b == 8) && n % b == 0
    ensures (n + m) % b == m % b
  {}

  // ---- the connection ----

  /** How a read ends: with data, with the channel hung up, interrupted, or with a bad record. */
  datatype Reading = Data(s: seq<Byte>) | HungUp | Interrupted | Failed(f: Fault)

  class Dstate {
    const c: Conf
    var input: Way
    var output: Way
    var processed: seq<Block>
    var unprocessed: seq<Block>
    /** The blocks that the channel has yet to bring, and the bytes written to it. */
    var arriving: seq<Block>
    var sent: seq<Byte>

    ghost predicate Valid()
      reads this
    {
      Usable(c) && (c.encrypting ==> c.alg != Alg.Clear)
    }

    /** All the bytes that came or will come and are not taken apart yet. */
    ghost function Raw(): seq<Byte>
      reads this
    {
      Flat(unprocessed) + Flat(arriving)
    }

    /** The data still to be read. */
    ghost function Pending(): seq<Byte>
      reads this
    {
      Flat(processed) + Plain(c, input, Raw())
    }

    constructor (c: Conf, start: Way, arriving: seq<Block>)
      requires Usable(c) && (c.encrypting ==> c.alg != Alg.Clear)
      ensures Valid() && this.c == c && input == output == start && this.arriving == arriving && sent == []
      ensures Pending() == Plain(c, start, Flat(arriving)) && Raw() == Flat(arriving)
    {
      this.c, input, output, this.arriving := c, start, start, arriving;
      processed, unprocessed, sent := [], [], [];
      new;
      FlatOne([]);
      assert Flat([]) + Flat(arriving) == Flat(arriving);
      assert Flat([]) + Plain(c, start, Flat(arriving)) == Plain(c, start, Flat(arriving));
    }

    // ---- writing ----

    /** One record of `sslbwrite`. */
    method PutRecord(data: seq<Byte>, fill: seq<Byte>)
      requires Valid() && (c.diglen + |data| + |fill|) % BlockSize(c) == 0 && |fill| < 256
      requires c.diglen + |data| + |fill| < (if fill == [] then 0x8000 else 0x4000)
      modifies this`sent, this`output
      ensures sent == old(sent) + Record(c, old(output), data, fill) && output == After(c, old(output), data + fill)
    {
      hide Encrypt, Mid, Sound, BlockLen, Seal, Digest, BlockSize;
      var m := c.diglen + |data| + |fill|;
      var count := if fill != [] then [m / 256, m % 256, |fill|] else [m / 256 + 0x80, m % 256];
      var t := data + fill;
      var digest := if c.digesting then c.hf(c.secret + t + Mid(output.mid)) else [];
      DigestIs(c, output.mid, t);
      var nb := count + (digest + t);
      ghost var body := Body(c, output.mid, t);
      assert count == Count(m, |fill|);
      assert |body| == m;
      var cs := output.cs;
      if c.encrypting {
        assert nb[|count|..] == body && nb[..|count|] == count;
        BlockSizes(c);
        nb, cs := EncryptB(c.alg, cs, nb, |count|);
      }
      SealIs(c, output, body);
      sent := sent + nb;
      output := Way(cs, output.mid + 1);
    }

    /** `sslbwrite`. */
    method SslBwrite(b: seq<Byte>, fills: seq<seq<Byte>>) returns (rv: nat)
      requires Valid()
      modifies this`sent, this`output
      ensures rv == |b|
      ensures var (r, w) := Written(c, old(output), b, fills); sent == old(sent) + r && output == w
    {
      hide Record, After, Fill;
      rv := 0;
      var left, pads, more := b, fills, true;
      ghost var done: seq<Byte> := [];
      assert [] + Written(c, output, b, fills).0 == Written(c, output, b, fills).0;
      while more
        invariant sent == old(sent) + done && rv + |left| == |b|
        invariant var all := Written(c, old(output), b, fills);
                  if more then
                    var rest := Written(c, output, left, pads); all.0 == done + rest.0 && all.1 == rest.1
                  else left == [] && all.0 == done && all.1 == output
        decreases more, |left|
      {
        var p := Trim(c, |left|);
        TrimFits(c, |left|);
        var fill := Fill(pads, p.pad);
        ghost var r, w' := Record(c, output, left[..p.m], fill), After(c, output, left[..p.m] + fill);
        ghost var was := done;
        PutRecord(left[..p.m], fill);
        rv := rv + p.m;
        done := done + r;
        if p.m == |left| {
          more := false;
        } else {
          Regroup(was, r, Written(c, w', left[p.m..], if pads == [] then [] else pads[1..]).0);
        }
        left := left[p.m..];
        pads := if pads == [] then [] else pads[1..];
      }
    }

    // ---- reading ----

    /** `ensure`: collects blocks until there are n bytes. It fails if the channel has no more, or brings an
        empty block; it may be interrupted, after `breads` blocks. */
    method Ensure(n: nat, breads: nat) returns (r: Reading)
      modifies this`unprocessed, this`arriving
      ensures Raw() == old(Raw()) && (r.Data? || r.HungUp? || r.Interrupted?)
      ensures r.Data? ==> |Flat(unprocessed)| >= n
      ensures r.HungUp? ==> |old(Raw())| < n || [] in old(arriving)
      ensures |arriving| <= |old(arriving)| && (r.Interrupted? ==> |arriving| + breads == |old(arriving)|)
      ensures forall b :: b in arriving ==> b in old(arriving)
    {
      hide Flat;
      var sofar, k := 0, 0;
      FlatSplit(unprocessed, 0);
      while k < |unprocessed| && sofar < n
        invariant 0 <= k <= |unprocessed| && sofar == |Flat(unprocessed[..k])| && Raw() == old(Raw())
        invariant unprocessed == old(unprocessed) && arriving == old(arriving)
      {
        FlatSplit(unprocessed, k);
        sofar, k := sofar + |unprocessed[k]|, k + 1;
      }
      FlatSplit(unprocessed, k);
      if sofar >= n {
        return Data([]);
      }
      assert unprocessed[..k] == unprocessed;
      var i := 0;
      while sofar < n
        invariant sofar == |Flat(unprocessed)| && Raw() == old(Raw())
        invariant |arriving| + i == |old(arriving)| && i <= breads
        invariant forall b :: b in arriving ==> b in old(arriving)
        decreases |arriving|
      {
        if i == breads {
          return Interrupted;
        }
        if arriving == [] {
          FlatOne([]);
          return HungUp;
        }
        i := i + 1;
        var bl := arriving[0];
        FlatSplit(arriving, 0);
        FlatJoin(unprocessed, [bl]);
        FlatOne(bl);
        NoneBefore(arriving);
        Regroup(Flat(unprocessed), bl, Flat(arriving[1..]));
        unprocessed, arriving := unprocessed + [bl], arriving[1..];
        if |bl| == 0 {
          return HungUp;
        }
        sofar := sofar + |bl|;
      }
      r := Data([]);
    }

    /** The digest of a body whose first block holds it: `checkdigestb`. */
    method CheckDigest(l: seq<Block>) returns (ok: bool)
      requires Valid() && c.digesting && l != [] && |l[0]| >= c.diglen
      ensures var s := Flat(l); |s| >= c.diglen && (ok <==> Digest(c, input.mid, s[c.diglen..]) == s[..c.diglen])
    {
      hide Mid, Sound;
      FlatSplit(l, 0);
      var hashed, h, k := c.secret, c.diglen, 0;
      ghost var s := Flat(l);
      assert c.secret + s[c.diglen..][..0] == c.secret;
      while k < |l|
        invariant 0 <= k <= |l| && h == (if k == 0 then c.diglen else 0)
        invariant k > 0 ==> |Flat(l[..k])| >= c.diglen
        invariant hashed == c.secret + (if k == 0 then [] else Flat(l[..k])[c.diglen..])
      {
        FlatSplit(l, k);
        FlatOne([]);
        var was, b := Flat(l[..k]), l[k];
        assert k == 0 ==> was + b == b;
        assert k > 0 ==> (was + b)[c.diglen..] == was[c.diglen..] + b;
        Regroup(c.secret, if k == 0 then [] else was[c.diglen..], b[h..]);
        hashed, h, k := hashed + b[h..], 0, k + 1;
      }
      assert l[..k] == l;
      var digest := c.hf(hashed + Mid(input.mid));
      assert l[0][..c.diglen] == s[..c.diglen];
      ok := digest == l[0][..c.diglen];
    }

    /** What `sslbread` does to the body of a record, with the digest and the cipher of the connection. */
    method OpenRecord(len: nat, pad: nat) returns (r: Reading)
      requires Valid() && |Flat(processed)| == len && pad <= len
      modifies this`processed, this`input
      ensures match Unwrap(c, old(input), old(Flat(processed)), pad)
              case Whole(_, t, w) => r == Data([]) && Flat(processed) == t && input == w
              case Wrong(f) => r == Failed(f)
              case Partial => false
    {
      hide Decrypt, Digest, Sound, BlockLen, Flat, Kept, Open;
      ghost var s, w := Flat(processed), input;
      OpenIs(c, w, s);
      var cs, left := input.cs, len;
      if c.encrypting {
        var ok;
        ok, processed, cs := DecryptB(c.alg, cs, processed);
        if !ok {
          return Failed(TooShort);
        }
      }
      ghost var x := Flat(processed);
      if |x| >= c.diglen {
        KeptAll(c, len, x, pad);
      }
      if c.digesting {
        FlatOne([]);
        if processed == [] {
          return Failed(TooShort);
        }
        var ok;
        ok, processed := PullUp(processed, c.diglen);
        if !ok {
          return Failed(TooShort);
        }
        ok := CheckDigest(processed);
        if !ok {
          return Failed(BadDigest);
        }
        DropFirst(processed, c.diglen);
        processed := [processed[0][c.diglen..]] + processed[1..];
        if c.encrypting {
          left := left - c.diglen;
        }
      }
      input := Way(cs, input.mid + 1);
      if pad != 0 {
        if left < pad {
          return Failed(Panic);
        }
        ghost var rest;
        processed, rest := Qremove(processed, left - pad, true);
      }
      r := Data([]);
    }

    /** Reads the count of a record and makes sure that its body is there. Interrupted, it puts the count
        back. */
    method ReadCount(breads: nat) returns (r: Reading, len: nat, pad: nat)
      requires Valid()
      modifies this`unprocessed, this`arriving
      ensures forall b :: b in arriving ==> b in old(arriving)
      ensures r.Interrupted? ==> Raw() == old(Raw()) && |arriving| + breads <= |old(arriving)|
      ensures r.HungUp? ==> Parse(c, input, old(Raw())).Partial? || [] in old(arriving)
      ensures r.Failed? ==> Parse(c, input, old(Raw())) == Wrong(r.f)
      ensures r.Data? ==>
                var s := old(Raw());
                && |s| >= 2 && len == Length(s) && |s| >= Header(s) + len && pad == Padding(s) <= len
                && Raw() == s[Header(s)..] && |Flat(unprocessed)| >= len
    {
      hide Flat, Unwrap;
      ghost var s, blocks := Raw(), arriving;
      len, pad := 0, 0;
      r := Ensure(2, breads);
      if !r.Data? {
        return;
      }
      ghost var flat := Flat(unprocessed);
      var count;
      count, unprocessed := Consume(unprocessed, 2);
      CutFront(flat, Flat(arriving), 2);
      var high: int := count[0];
      assert count[0] == s[0] && count[1] == s[1] && Raw() == s[2..];
      var extra := if high >= 0x80 then 0 else 1;
      len := if high >= 0x80 then (high - 0x80) * 256 + count[1] else high % 0x40 * 256 + count[1];
      ghost var left := arriving;
      r := Ensure(len + extra, breads);
      if r.Interrupted? {
        FlatJoin([count], unprocessed);
        FlatOne(count);
        Regroup(count, Flat(unprocessed), Flat(arriving));
        unprocessed := [count] + unprocessed;
        return;
      }
      if r.HungUp? {
        return;
      }
      if extra == 1 {
        flat := Flat(unprocessed);
        var more;
        more, unprocessed := Consume(unprocessed, 1);
        CutFront(flat, Flat(arriving), 1);
        assert more[0] == s[2..][0];
        pad := more[0];
        if pad > len {
          return Failed(BadPad), len, pad;
        }
      }
    }

    /** The first part of `sslbread`: the next whole record, opened. */
    method NextRecord(breads: nat) returns (r: Reading)
      requires Valid() && processed == []
      modifies this`processed, this`unprocessed, this`arriving, this`input
      ensures r.Data? ==> Pending() == old(Pending())
      ensures r.Interrupted? ==>
                && Raw() == old(Raw()) && processed == [] && input == old(input)
                && |arriving| + breads <= |old(arriving)|
      ensures r.HungUp? ==> Parse(c, old(input), old(Raw())).Partial? || [] in old(arriving)
      ensures r.Failed? ==> Parse(c, old(input), old(Raw())) == Wrong(r.f)
      ensures r.Data? ==>
                var p := Parse(c, old(input), old(Raw()));
                && p.Whole? && 2 <= p.len <= |old(Raw())| && input == p.w && Raw() == old(Raw())[p.len..]
                && Flat(processed) == p.s
      ensures forall b :: b in arriving ==> b in old(arriving)
    {
      hide Flat, Unwrap;
      ghost var s, w := Raw(), input;
      var len, pad;
      r, len, pad := ReadCount(breads);
      if !r.Data? {
        return;
      }
      ghost var flat, h := Flat(unprocessed), Header(s);
      processed, unprocessed := Qremove(unprocessed, len, false);
      CutFront(flat, Flat(arriving), len);
      assert Flat(processed) == s[h..][..len] == s[h..h + len];
      assert Raw() == s[h..][len..] == s[h + len..];
      UnwrapLength(c, w, s[h..h + len], pad);
      r := OpenRecord(len, pad);
      if r.Data? {
        PlainNext(c, w, s, Flat(processed), input, h + len);
        FlatOne([]);
      }
    }

    /** `sslbread`: at most n bytes, of what is left of the record read last, or of the next. It is interrupted at most
        when the channel has been read often enough. */
    method SslBread(n: nat, breads: nat) returns (r: Reading)
      requires Valid()
      modifies this`processed, this`unprocessed, this`arriving, this`input
      ensures r.Data? ==> |r.s| <= n && old(Pending()) == r.s + Pending()
      ensures r.Data? && old(processed) != [] ==>
                && Raw() == old(Raw()) && input == old(input)
                && Halved(old(Flat(processed)), n, r.s, Flat(processed))
                && (n > |old(Flat(processed))| ==> processed == [])
      ensures r.Data? && old(processed) == [] ==>
                var p := Parse(c, old(input), old(Raw()));
                && p.Whole? && 2 <= p.len <= |old(Raw())| && input == p.w && Raw() == old(Raw())[p.len..]
                && Halved(p.s, n, r.s, Flat(processed))
      ensures r.Interrupted? ==>
                && Raw() == old(Raw()) && processed == old(processed) && input == old(input)
                && |arriving| + breads <= |old(arriving)|
      ensures r.HungUp? ==> old(processed) == [] && (Parse(c, old(input), old(Raw())).Partial? || [] in old(arriving))
      ensures r.Failed? ==> old(processed) == [] && Parse(c, old(input), old(Raw())) == Wrong(r.f)
      ensures Good(c, old(input), old(Raw())) ==> !r.Failed? && (r.Data? ==> Good(c, input, Raw()))
      ensures forall b :: b in arriving ==> b in old(arriving)
    {
      hide Flat, Unwrap, Plain, Parse, Good;
      GoodMeans(c, input, Raw());
      if processed == [] {
        r := NextRecord(breads);
        if !r.Data? {
          return;
        }
      }
      var b;
      ghost var all := Flat(processed);
      b, processed := Qremove(processed, n, false);
      CutAt(all, n);
      Regroup(Flat(b), Flat(processed), Plain(c, input, Raw()));
      assert all == Flat(b) + Flat(processed);
      r := Data(Flat(b));
    }
  }

  lemma BlockSizes(c: Conf)
    ensures BlockSize(c) == if c.encrypting then BlockLen(c.alg) else 1
  {}

  lemma DigestIs(c: Conf, mid: nat, t: seq<Byte>)
    requires Usable(c)
    ensures Digest(c, mid, t) == if c.digesting then c.hf(c.secret + t + Mid(mid)) else []
    ensures |Digest(c, mid, t)| == c.diglen
  {
    hide Mid, Sound;
  }

  lemma SealIs(c: Conf, w: Way, body: seq<Byte>)
    ensures Seal(c, w, body) == if c.encrypting then Encrypt(c.alg, w.cs, body) else Coded(body, w.cs)
  {}

  lemma OpenIs(c: Conf, w: Way, s: seq<Byte>)
    ensures Open(c, w, s) == if c.encrypting then Decrypt(c.alg, w.cs, s) else Coded(s, w.cs)
  {}

  lemma KeptAll(c: Conf, n: nat, x: seq<Byte>, pad: nat)
    requires |x| == n && (c.digesting <==> c.diglen > 0) && c.diglen <= n && pad <= n
    ensures var t := x[c.diglen..];
            var left: int := if c.digesting && c.encrypting then n - c.diglen else n;
            && (pad == 0 ==> Kept(c, n, t, pad) == |t|)
            && (pad > 0 ==> Kept(c, n, t, pad) == if left - pad < |t| then left - pad else |t|)
            && (pad == 0 ==> t[..|t|] == t)
  {}

  /** Dropping bytes from the first block drops them from the front. */
  lemma DropFirst(l: seq<Block>, n: nat)
    requires l != [] && |l[0]| >= n
    ensures |Flat(l)| >= n && Flat([l[0][n..]] + l[1..]) == Flat(l)[n..]
  {
    hide Flat;
    NoneBefore(l);
    FlatJoin([l[0][n..]], l[1..]);
    FlatOne(l[0][n..]);
    CutFront(l[0], Flat(l[1..]), n);
  }

  lemma CutFront(a: seq<Byte>, b: seq<Byte>, n: nat)
    requires n <= |a|
    ensures (a + b)[..n] == a[..n] && (a + b)[n..] == a[n..] + b
  {}

  lemma PlainNext(c: Conf, w: Way, s: seq<Byte>, t: seq<Byte>, w': Way, n: nat)
    requires Parse(c, w, s) == Whole(n, t, w') && 0 < n <= |s|
    ensures Plain(c, w, s) == t + Plain(c, w', s[n..])
  {
    hide Parse;
  }

  lemma GoodMeans(c: Conf, w: Way, s: seq<Byte>)
    ensures Good(c, w, s) ==>
              match Parse(c, w, s)
              case Wrong(_) => false
              case Whole(n, t, w') => n <= |s| && Good(c, w', s[n..])
              case Partial => Plain(c, w, s) == []
  {
    hide Parse;
  }

  /** Data written on one side and read on the other, in step: whatever the writes, the blocks in which the
      channel brings the bytes, the amounts asked for and the interruptions, what is read is what was
      written, from the beginning; and all of it, when the channel is read to its end. */
  method Exchange(c: Conf, start: Way, ws: seq<seq<Byte>>, fills: seq<seq<seq<Byte>>>, blocks: seq<Block>,
                  asks: seq<(nat, nat)>)
    returns (got: seq<Byte>, last: Reading)
    requires Usable(c) && (c.encrypting ==> c.alg != Alg.Clear) && |fills| == |ws|
    requires Flat(blocks) == AllWritten(c, start, ws, fills).0
    ensures got <= Join(ws) && !last.Failed?
    ensures last.HungUp? && [] !in blocks ==> got == Join(ws)
  {
    hide Flat, Plain, Good, Parse, AllWritten, Usable, Join;
    AllRead(c, start, ws, fills);
    var d := new Dstate(c, start, blocks);
    FlatOne([]);
    got, last := [], Data([]);
    ghost var all := d.Pending();
    assert [] + Flat(blocks) == Flat(blocks);
    assert [] + all == all;
    var i := 0;
    while i < |asks|
      invariant d.Valid() && d.c == c && fresh(d) && got + d.Pending() == all && Good(c, d.input, d.Raw())
      invariant !last.Failed?
      invariant !last.HungUp? && forall b :: b in d.arriving ==> b in blocks
    {
      ghost var before := d.Pending();
      GoodMeans(c, d.input, d.Raw());
      FlatOne([]);
      last := d.SslBread(asks[i].0, asks[i].1);
      if last.HungUp? {
        assert [] !in blocks ==> before == [] + [];
        return;
      }
      if last.Data? {
        Regroup(got, last.s, d.Pending());
        got := got + last.s;
      }
      i := i + 1;
    }
  }

  /** Reading on, some bytes at a time and without interruption, until the channel hangs up, comes to an end, and brings
      all that was written if no block of the channel is empty. */
  method ReadToEnd(c: Conf, start: Way, ws: seq<seq<Byte>>, fills: seq<seq<seq<Byte>>>, blocks: seq<Block>, n: nat)
    returns (got: seq<Byte>)
    requires Usable(c) && (c.encrypting ==> c.alg != Alg.Clear) && |fills| == |ws| && n > 0
    requires Flat(blocks) == AllWritten(c, start, ws, fills).0
    ensures got <= Join(ws) && ([] !in blocks ==> got == Join(ws))
  {
    hide Flat, Plain, Good, Parse, AllWritten, Usable, Join;
    AllRead(c, start, ws, fills);
    var d := new Dstate(c, start, blocks);
    FlatOne([]);
    got := [];
    var last: Reading := Data([]);
    ghost var all := d.Pending();
    assert [] + Flat(blocks) == Flat(blocks);
    assert [] + all == all;
    while !last.HungUp?
      invariant d.Valid() && d.c == c && fresh(d) && !last.Failed? && got <= all && all == Join(ws)
      invariant !last.HungUp? ==>
                  && got + d.Pending() == all && Good(c, d.input, d.Raw())
                  && forall b :: b in d.arriving ==> b in blocks
      invariant last.HungUp? && [] !in blocks ==> got == all
      decreases if last.HungUp? then 0 else 1, |d.Raw()|, |Flat(d.processed)|, |d.processed|
    {
      ghost var before := d.Pending();
      GoodMeans(c, d.input, d.Raw());
      FlatOne([]);
      last := d.SslBread(n, |d.arriving| + 1);
      if last.HungUp? {
        assert [] !in blocks ==> before == [] + [];
      } else {
        Regroup(got, last.s, d.Pending());
        got := got + last.s;
      }
    }
  }
}
