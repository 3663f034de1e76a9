/**
 The 48-byte block format of the append-only file system: directory blocks, data blocks
 that link to a next block, and end blocks that carry a length.  Every block ends in a byte
 that makes the sum of all its bytes zero modulo 256.
 */
module TinyFormat {
  import opened Octets

  const BLEN := 48
  const NLEN := 28
  const DLEN := 44
  const TAG_DIR: Byte := 100   // 'd'
  const TAG_DATA: Byte := 68   // 'D'
  const TAG_END: Byte := 101   // 'e'
  const NOTABNO := 0xffff

  type Block = b: seq<Byte> | |b| == 48 witness seq(48, i => 0)

  /** What a block means to the file system.  `next`, `dbno` are block numbers. */
  datatype Cell =
    | Dir(dbno: nat, pin: nat, name: seq<Byte>)
    | Data(next: nat, data: seq<Byte>)
    | End(len: nat, data: seq<Byte>)
    | Junk

  function Sum(s: seq<Byte>): nat {
    if s == [] then 0 else Sum(s[..|s| - 1]) + s[|s| - 1]
  }

  /** The block checksum, kept in one byte as the C code does. */
  method Checksum(p: Block) returns (s: Byte)
    ensures s == Sum(p) % 256
  {
    s := 0;
    for e := 0 to BLEN
      invariant s == Sum(p[..e]) % 256
    {
      assert p[..e + 1][..e] == p[..e];
      s := (s + p[e]) % 256;
    }
    assert p[..BLEN] == p;
  }

  function Zeros(n: nat): (s: seq<Byte>)
    ensures |s| == n
  {
    seq(n, i => 0)
  }

  function GetS(lo: Byte, hi: Byte): nat { lo + 256 * hi }

  function PutS(v: nat): (s: seq<Byte>)
    ensures |s| == 2
  {
    [v % 256, v / 256 % 256]
  }

  lemma ShortRoundTrip(v: nat)
    requires v <= 0xffff
    ensures GetS(PutS(v)[0], PutS(v)[1]) == v
  {}

  /** Appends the byte that makes the block sum to zero modulo 256. */
  function Seal(body: seq<Byte>): Block
    requires |body| == 47
  {
    body + [(256 - Sum(body) % 256) % 256]
  }

  lemma SealSums(body: seq<Byte>)
    requires |body| == 47
    ensures Sum(Seal(body)) % 256 == 0
  {
    assert Seal(body)[..47] == body;
  }

  /** The bytes of a name field up to its first NUL. */
  function CString(raw: seq<Byte>): (s: seq<Byte>)
    ensures |s| <= |raw| && 0 !in s
    ensures |s| < |raw| ==> raw[|s|] == 0
    ensures s == raw[..|s|]
  {
    if raw == [] || raw[0] == 0 then [] else [raw[0]] + CString(raw[1..])
  }

  lemma CStringPadded(name: seq<Byte>, n: nat)
    requires 0 !in name && 0 < n
    ensures CString(name + Zeros(n)) == name
  {
    if name != [] {
      assert (name + Zeros(n))[1..] == name[1..] + Zeros(n);
      CStringPadded(name[1..], n);
    }
  }

  /** `validdir`, `validdata` as one total decoding of a block on a medium of `n` blocks. */
  function Decode(b: Block, n: nat): Cell {
    var x := GetS(b[1], b[2]);
    if Sum(b) % 256 != 0 then Junk
    else if b[0] == TAG_DIR then
      if x >= n then Junk else Dir(x, GetS(b[3], b[4]), CString(b[5..33]))
    else if b[0] == TAG_DATA then
      if x >= n then Junk else Data(x, b[3..47])
    else if b[0] == TAG_END then
      if x > DLEN then Junk else End(x, b[3..47])
    else Junk
  }

  /** `validdir`, `validdata`: reads a block through its checksum. */
  method Validate(b: Block, n: nat) returns (c: Cell)
    ensures c == Decode(b, n)
  {
    var sum := Checksum(b);
    if sum != 0 {
      return Junk;
    }
    var x := GetS(b[1], b[2]);
    if b[0] == TAG_DIR && x < n {
      return Dir(x, GetS(b[3], b[4]), CString(b[5..33]));
    }
    if b[0] == TAG_DATA && x < n {
      return Data(x, b[3..47]);
    }
    if b[0] == TAG_END && x <= DLEN {
      return End(x, b[3..47]);
    }
    return Junk;
  }

  /** Completes a block by its checksum byte, computed over the block with a zero in its place. */
  method Complete(body: seq<Byte>) returns (b: Block)
    requires |body| == 47
    ensures b == Seal(body)
  {
    b := body + [0];
    assert b[..47] == body;
    var sum: int := Checksum(b);
    b := body + [(256 - sum) % 256];
  }

  /** The file bytes a block contributes. */
  function Bytes(c: Cell): (s: seq<Byte>)
    ensures c.End? && c.len <= |c.data| ==> |s| == c.len
  {
    match c
    case Data(_, data) => data
    case End(len, data) => if len <= |data| then data[..len] else []
    case _ => []
  }

  function EncodeEnd(data: seq<Byte>): Block
    requires |data| <= DLEN
  {
    Seal([TAG_END] + PutS(|data|) + data + Zeros(DLEN - |data|))
  }

  function EncodeData(next: nat, data: seq<Byte>): Block
    requires |data| <= DLEN
  {
    Seal([TAG_DATA] + PutS(next) + data + Zeros(DLEN - |data|))
  }

  function EncodeDir(dbno: nat, pin: nat, name: seq<Byte>): Block {
    var short := if |name| > NLEN - 1 then name[..NLEN - 1] else name;
    Seal([TAG_DIR] + PutS(dbno) + PutS(pin) + short + Zeros(NLEN - |short|) + Zeros(14))
  }

  /** The pattern `freefile` writes over a directory block. */
  function Blank(): Block { seq(48, i => 0x55) }

  lemma SumConstant(k: nat)
    ensures Sum(seq(k, i => 0x55)) == 0x55 * k
  {
    if k > 0 {
      assert seq(k, i => 0x55 as Byte)[..k - 1] == seq(k - 1, i => 0x55 as Byte);
      SumConstant(k - 1);
    }
  }

  lemma BlankIsJunk(n: nat)
    ensures Decode(Blank(), n) == Junk
  {
    SumConstant(48);
  }

  lemma DecodeEnd(data: seq<Byte>, n: nat)
    requires |data| <= DLEN
    ensures Decode(EncodeEnd(data), n).End?
    ensures Decode(EncodeEnd(data), n).len == |data|
    ensures Bytes(Decode(EncodeEnd(data), n)) == data
  {
    var body := [TAG_END] + PutS(|data|) + data + Zeros(DLEN - |data|);
    SealSums(body);
    ShortRoundTrip(|data|);
    assert Seal(body)[3..47] == data + Zeros(DLEN - |data|);
  }

  /** A data block always counts for 44 bytes: shorter contents come back zero-padded. */
  lemma DecodeData(next: nat, data: seq<Byte>, n: nat)
    requires |data| <= DLEN && next < n <= NOTABNO
    ensures Decode(EncodeData(next, data), n) == Data(next, data + Zeros(DLEN - |data|))
  {
    var body := [TAG_DATA] + PutS(next) + data + Zeros(DLEN - |data|);
    SealSums(body);
    ShortRoundTrip(next);
    assert Seal(body)[3..47] == data + Zeros(DLEN - |data|);
  }

  lemma DirLayout(dbno: nat, pin: nat, raw: seq<Byte>)
    requires |raw| == NLEN
    ensures var b := Seal([TAG_DIR] + PutS(dbno) + PutS(pin) + raw + Zeros(14));
            && b[0] == TAG_DIR
            && b[1] == PutS(dbno)[0] && b[2] == PutS(dbno)[1]
            && b[3] == PutS(pin)[0] && b[4] == PutS(pin)[1]
            && b[5..33] == raw
  {
    var body := [TAG_DIR] + PutS(dbno) + PutS(pin) + raw + Zeros(14);
    assert Seal(body)[..47] == body;
    assert body[5..33] == raw;
    assert Seal(body)[5..33] == body[5..33];
  }

  /** An empty file's directory block (dbno == NOTABNO) is not a directory on any medium. */
  lemma DecodeDir(dbno: nat, pin: nat, name: seq<Byte>, n: nat)
    requires dbno <= NOTABNO && pin <= 0xffff && n <= NOTABNO
    requires 0 !in name && |name| < NLEN
    ensures Decode(EncodeDir(dbno, pin, name), n) == if dbno < n then Dir(dbno, pin, name) else Junk
  {
    var raw := name + Zeros(NLEN - |name|);
    var body := [TAG_DIR] + PutS(dbno) + PutS(pin) + raw + Zeros(14);
    assert body == [TAG_DIR] + PutS(dbno) + PutS(pin) + name + Zeros(NLEN - |name|) + Zeros(14);
    SealSums(body);
    DirLayout(dbno, pin, raw);
    ShortRoundTrip(dbno);
    ShortRoundTrip(pin);
    CStringPadded(name, NLEN - |name|);
  }

  lemma DecodedData(b: Block, n: nat)
    ensures Decode(b, n).Dir? ==> Decode(b, n).dbno < n
    ensures Decode(b, n).Data? ==> |Bytes(Decode(b, n))| == DLEN && Decode(b, n).next < n
    ensures Decode(b, n).End? ==> |Bytes(Decode(b, n))| == Decode(b, n).len <= DLEN
  {}
}
