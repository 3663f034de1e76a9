/**
 The 48 bytes of a block of `emu/devtinyfs.c`, one by one: what each kind of block has in which place, both as it is
 written and as it is read, and what the checksum finds.
 */
module TinyLayout {
  import opened Octets
  import opened TinyFormat

  /** Bytes 5 to 32 hold the name, and a zero byte behind it if it is shorter. */
  predicate Named(b: Block, name: seq<Byte>) {
    |name| <= 28 && b[5..5 + |name|] == name && 0 !in name && (|name| < 28 ==> b[5 + |name|] == 0)
  }

  /** The block is a directory block, a data block, or an end block. */
  predicate DirBytes(b: Block, dbno: nat, pin: nat, name: seq<Byte>) {
    b[0] as char == 'd' && ShortAt(b, 1) == dbno && ShortAt(b, 3) == pin && Named(b, name)
  }

  predicate DataBytes(b: Block, next: nat, data: seq<Byte>) {
    b[0] as char == 'D' && ShortAt(b, 1) == next && b[3..47] == data
  }

  predicate EndBytes(b: Block, len: nat, data: seq<Byte>) {
    b[0] as char == 'e' && ShortAt(b, 1) == len && b[3..47] == data
  }

  // ---- the checksum ----

  /** A byte changed changes the sum by as much. */
  lemma {:induction false} SumChange(s: seq<Byte>, i: nat, x: Byte)
    requires i < |s|
    ensures Sum(s[i := x]) - x == Sum(s) - s[i]
  {
    var n := |s| - 1;
    if i == n {
      assert s[i := x][..n] == s[..n];
    } else {
      SumChange(s[..n], i, x);
      assert s[i := x][..n] == s[..n][i := x];
    }
  }

  lemma {:induction false} SumZeros(n: nat)
    ensures Sum(Zeros(n)) == 0
  {
    if n > 0 {
      assert Zeros(n)[..n - 1] == Zeros(n - 1);
      SumZeros(n - 1);
    }
  }

  /** No block with one byte changed is taken for anything. */
  lemma ChangeFound(b: Block, n: nat, i: nat, x: Byte)
    requires Decode(b, n) != Junk && i < 48 && x != b[i]
    ensures Decode(b[i := x], n) == Junk
  {
    SumChange(b, i, x);
    Apart(Sum(b), Sum(b[i := x]), b[i], x);
  }

  lemma Apart(s: nat, t: nat, x: Byte, y: Byte)
    requires t - y == s - x && x != y && s % 256 == 0
    ensures t % 256 != 0
  {}

  // ---- reading ----

  lemma {:induction false} CStringOnly(raw: seq<Byte>, s: seq<Byte>)
    requires |s| <= |raw| && raw[..|s|] == s && 0 !in s && (|s| < |raw| ==> raw[|s|] == 0)
    ensures CString(raw) == s
  {
    if raw != [] {
      if s != [] {
        assert raw[1..][..|s| - 1] == raw[..|s|][1..] == s[1..];
        CStringOnly(raw[1..], s[1..]);
        assert s == [s[0]] + s[1..];
      }
    }
  }

  lemma NameIs(b: Block, name: seq<Byte>)
    ensures Named(b, name) <==> name == CString(b[5..33])
  {
    var raw := b[5..33];
    if Named(b, name) {
      assert raw[..|name|] == b[5..5 + |name|];
      CStringOnly(raw, name);
    }
    if name == CString(raw) {
      assert b[5..5 + |name|] == raw[..|name|];
    }
  }

  /** What a block of a medium of n blocks is taken for. */
  lemma DecodeMeans(b: Block, n: nat, dbno: nat, pin: nat, s: seq<Byte>)
    ensures Decode(b, n) == Dir(dbno, pin, s) <==> Sum(b) % 256 == 0 && dbno < n && DirBytes(b, dbno, pin, s)
    ensures Decode(b, n) == Data(dbno, s) <==> Sum(b) % 256 == 0 && dbno < n && DataBytes(b, dbno, s)
    ensures Decode(b, n) == End(dbno, s) <==> Sum(b) % 256 == 0 && dbno <= 44 && EndBytes(b, dbno, s)
  {
    hide Sum, CString, Named;
    NameIs(b, s);
  }

  // ---- writing ----

  /** The blocks as they are written: the data from byte 3 on, the rest zero, but for the last byte. */
  lemma EncodeMeans(next: nat, data: seq<Byte>)
    requires |data| <= 44 && next <= 0xffff
    ensures EndBytes(EncodeEnd(data), |data|, data + Zeros(44 - |data|)) && Sum(EncodeEnd(data)) % 256 == 0
    ensures DataBytes(EncodeData(next, data), next, data + Zeros(44 - |data|)) && Sum(EncodeData(next, data)) % 256 == 0
  {
    hide Sum;
    Sealed(TAG_END, |data|, data);
    Sealed(TAG_DATA, next, data);
  }

  lemma Sealed(tag: Byte, v: nat, data: seq<Byte>)
    requires |data| <= 44 && v <= 0xffff
    ensures var b := Seal([tag] + PutS(v) + data + Zeros(DLEN - |data|));
            b[0] == tag && ShortAt(b, 1) == v && b[3..47] == data + Zeros(44 - |data|) && Sum(b) % 256 == 0
  {
    var body := [tag] + PutS(v) + data + Zeros(DLEN - |data|);
    SealSums(body);
    assert Seal(body)[3..47] == data + Zeros(44 - |data|);
  }

  /** A directory block as it is written: of the name at most 27 bytes. */
  lemma EncodeDirMeans(dbno: nat, pin: nat, name: seq<Byte>)
    requires dbno <= 0xffff && pin <= 0xffff && 0 !in name
    ensures var b := EncodeDir(dbno, pin, name);
            DirBytes(b, dbno, pin, if |name| > 27 then name[..27] else name) && Sum(b) % 256 == 0
  {
    hide Sum;
    var short := if |name| > 27 then name[..27] else name;
    var raw := short + Zeros(NLEN - |short|);
    var body := [TAG_DIR] + PutS(dbno) + PutS(pin) + raw + Zeros(14);
    assert body == [TAG_DIR] + PutS(dbno) + PutS(pin) + short + Zeros(NLEN - |short|) + Zeros(14);
    SealSums(body);
    DirLayout(dbno, pin, raw);
    var b := Seal(body);
    assert b[5..5 + |short|] == b[5..33][..|short|] == short;
    assert b[5 + |short|] == b[5..33][|short|];
  }
}
