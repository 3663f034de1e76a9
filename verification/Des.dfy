/**
 The block cipher of `crypt/des.c`: the initial and the final permutation by tables, the sixteen rounds,
 and triple encryption. Nothing here depends on the round function: the theorems hold for any.
 */
module Des {

  type Word = bv32

  type Block = b: seq<bv8> | |b| == 8 witness seq(8, i => 0)

  /** `ip_bits`: spreads four bits over the four bytes. */
  function IpTable(n: Word): Word {
    if n == 0 then 0x00000000 else if n == 1 then 0x00000001 else if n == 2 then 0x00000100
    else if n == 3 then 0x00000101 else if n == 4 then 0x00010000 else if n == 5 then 0x00010001
    else if n == 6 then 0x00010100 else if n == 7 then 0x00010101 else if n == 8 then 0x01000000
    else if n == 9 then 0x01000001 else if n == 10 then 0x01000100 else if n == 11 then 0x01000101
    else if n == 12 then 0x01010000 else if n == 13 then 0x01010001 else if n == 14 then 0x01010100
    else 0x01010101
  }

  /** `ip_1_bits`. */
  function FpTable(n: Word): Word {
    if n == 0 then 0x00000000 else if n == 1 then 0x80000000 else if n == 2 then 0x00800000
    else if n == 3 then 0x80800000 else if n == 4 then 0x00008000 else if n == 5 then 0x80008000
    else if n == 6 then 0x00808000 else if n == 7 then 0x80808000 else if n == 8 then 0x00000080
    else if n == 9 then 0x80000080 else if n == 10 then 0x00800080 else if n == 11 then 0x80800080
    else if n == 12 then 0x00008080 else if n == 13 then 0x80008080 else if n == 14 then 0x00808080
    else 0x80808080
  }

  /** What the tables do to four bits. */
  function Spread(n: Word): Word { (n & 1) | ((n & 2) << 7) | ((n & 4) << 14) | ((n & 8) << 21) }

  function Gather(n: Word): Word { ((n & 1) << 31) | ((n & 2) << 22) | ((n & 4) << 13) | ((n & 8) << 4) }

  lemma TablesAre(n: Word)
    requires n < 16
    ensures IpTable(n) == Spread(n) && FpTable(n) == Gather(n)
  {}

  /** The even and the odd bits of a byte, as four bits. */
  function Even(b: bv8): Word {
    var c := b as bv32;
    ((c & 0x40) >> 3) | ((c & 0x10) >> 2) | ((c & 0x04) >> 1) | (c & 0x01)
  }

  function Odd(b: bv8): Word {
    var c := b as bv32;
    ((c & 0x80) >> 4) | ((c & 0x20) >> 3) | ((c & 0x08) >> 2) | ((c & 0x02) >> 1)
  }

  lemma FourBits(b: bv8)
    ensures Even(b) < 16 && Odd(b) < 16
  {}

  datatype Halves = Halves(l: Word, r: Word)

  function Or(x: Word, y: Word): Word { x | y }

  /** x << i */
  function Up(x: Word, i: nat): Word
    requires i < 8
  {
    match i
    case 0 => x
    case 1 => x << 1
    case 2 => x << 2
    case 3 => x << 3
    case 4 => x << 4
    case 5 => x << 5
    case 6 => x << 6
    case _ => x << 7
  }

  /** x >> i */
  function Down(x: Word, i: nat): Word
    requires i < 8
  {
    match i
    case 0 => x
    case 1 => x >> 1
    case 2 => x >> 2
    case 3 => x >> 3
    case 4 => x >> 4
    case 5 => x >> 5
    case 6 => x >> 6
    case _ => x >> 7
  }

  /** Byte i of a word, from the top: x >> 24 - 8 i & 0xFF. */
  function ByteOf(x: Word, i: nat): Word
    requires i < 4
  {
    match i
    case 0 => (x >> 24) & 0xff
    case 1 => (x >> 16) & 0xff
    case 2 => (x >> 8) & 0xff
    case _ => x & 0xff
  }

  /** Eight spread words put together, each a bit further up. */
  function Woven(s: seq<Word>): Word
    requires |s| == 8
  {
    s[0] | (s[1] << 1) | (s[2] << 2) | (s[3] << 3) | (s[4] << 4) | (s[5] << 5) | (s[6] << 6) | (s[7] << 7)
  }

  /** The initial permutation: bit i of every byte of the left half is an even bit of byte i, of the right
      half an odd one. */
  function Initial(b: Block): Halves {
    Halves(
      Woven([Spread(Even(b[0])), Spread(Even(b[1])), Spread(Even(b[2])), Spread(Even(b[3])),
             Spread(Even(b[4])), Spread(Even(b[5])), Spread(Even(b[6])), Spread(Even(b[7]))]),
      Woven([Spread(Odd(b[0])), Spread(Odd(b[1])), Spread(Odd(b[2])), Spread(Odd(b[3])),
             Spread(Odd(b[4])), Spread(Odd(b[5])), Spread(Odd(b[6])), Spread(Odd(b[7]))]))
  }

  /** Four gathered words put together. */
  function Comb(a: Word, b: Word, c: Word, d: Word): Word {
    Or(Or(Or(a, Down(b, 2)), Down(c, 4)), Down(d, 6))
  }

  /** c & 0xF, or c >> 4 & 0xF. */
  function Nibble(c: Word, high: bool): Word {
    if high then (c >> 4) & 0xf else c & 0xf
  }

  /** The low or the high four bits of each byte of x, put together. */
  function Combed(x: Word, high: bool): Word {
    Comb(Gather(Nibble(ByteOf(x, 0), high)), Gather(Nibble(ByteOf(x, 1), high)),
         Gather(Nibble(ByteOf(x, 2), high)), Gather(Nibble(ByteOf(x, 3), high)))
  }

  /** `unpack`. */
  function Unpack(x: Word): seq<bv8> {
    [((x >> 24) & 0xff) as bv8, ((x >> 16) & 0xff) as bv8, ((x >> 8) & 0xff) as bv8, (x & 0xff) as bv8]
  }

  /** A word of the final permutation. */
  function Interleaved(h: Halves, high: bool): Word { Or(Down(Combed(h.l, high), 1), Combed(h.r, high)) }

  /** The final permutation. */
  function Final(h: Halves): Block {
    Unpack(Interleaved(h, false)) + Unpack(Interleaved(h, true))
  }

  lemma FinalOfInitial(b: Block)
    ensures Final(Initial(b)) == b
  {
    hide Initial, Unpack, Interleaved;
    FirstBytes(b);
    LastBytes(b);
    assert b == [b[0], b[1], b[2], b[3]] + [b[4], b[5], b[6], b[7]];
  }

  lemma FirstBytes(b: Block)
    ensures Unpack(Interleaved(Initial(b), false)) == [b[0], b[1], b[2], b[3]]
  {}

  lemma LastBytes(b: Block)
    ensures Unpack(Interleaved(Initial(b), true)) == [b[4], b[5], b[6], b[7]]
  {}

  lemma InitialOfFinal(h: Halves)
    ensures Initial(Final(h)) == h
  {}

  // ---- the code of the permutations ----

  /** What `ip` has put into the halves after n bytes. */
  function InitialTo(b: Block, n: nat): Halves
    requires n <= 8
  {
    if n == 0 then Halves(0, 0)
    else
      var h := InitialTo(b, n - 1);
      Halves(Or(h.l, Up(Spread(Even(b[n - 1])), n - 1)), Or(h.r, Up(Spread(Odd(b[n - 1])), n - 1)))
  }

  lemma InitialMore(b: Block, n: nat)
    requires n < 8
    ensures InitialTo(b, n + 1).l == Or(InitialTo(b, n).l, Up(Spread(Even(b[n])), n))
    ensures InitialTo(b, n + 1).r == Or(InitialTo(b, n).r, Up(Spread(Odd(b[n])), n))
    ensures InitialTo(b, 0) == Halves(0, 0)
  {
    hide Or, Up, Spread, Even, Odd;
  }

  lemma OrUps(s: seq<Word>)
    requires |s| == 8
    ensures Or(Or(Or(Or(Or(Or(Or(Or(0, Up(s[0], 0)), Up(s[1], 1)), Up(s[2], 2)), Up(s[3], 3)), Up(s[4], 4)),
                     Up(s[5], 5)), Up(s[6], 6)), Up(s[7], 7)) == Woven(s)
  {}

  lemma InitialAtEnd(b: Block)
    ensures InitialTo(b, 8) == Initial(b)
  {
    hide InitialTo, Spread, Even, Odd, Up, Or, Woven;
    InitialMore(b, 0);
    InitialMore(b, 1);
    InitialMore(b, 2);
    InitialMore(b, 3);
    InitialMore(b, 4);
    InitialMore(b, 5);
    InitialMore(b, 6);
    InitialMore(b, 7);
    OrUps([Spread(Even(b[0])), Spread(Even(b[1])), Spread(Even(b[2])), Spread(Even(b[3])),
           Spread(Even(b[4])), Spread(Even(b[5])), Spread(Even(b[6])), Spread(Even(b[7]))]);
    OrUps([Spread(Odd(b[0])), Spread(Odd(b[1])), Spread(Odd(b[2])), Spread(Odd(b[3])),
           Spread(Odd(b[4])), Spread(Odd(b[5])), Spread(Odd(b[6])), Spread(Odd(b[7]))]);
  }

  /** `ip`; the halves come back as L(b) and R(b). */
  method Ip(b: array<bv8>) returns (l: Word, r: Word)
    requires b.Length == 8
    ensures Halves(l, r) == Initial(b[..])
  {
    hide Spread, Even, Odd, Up, Or, IpTable, Initial, InitialTo;
    ghost var was := b[..];
    l, r := 0, 0;
    InitialMore(was, 0);
    for i := 0 to 8
      invariant Halves(l, r) == InitialTo(was, i)
    {
      FourBits(b[i]);
      TablesAre(Even(b[i]));
      TablesAre(Odd(b[i]));
      InitialMore(was, i);
      l := Or(l, Up(IpTable(Even(b[i])), i));
      r := Or(r, Up(IpTable(Odd(b[i])), i));
    }
    InitialAtEnd(was);
  }

  /** What a loop of `ip_1` has added to a word after n bytes of a half; its shifts are first, first + 2, and
      so on. */
  function CombedTo(p: Word, x: Word, high: bool, first: nat, n: nat): Word
    requires n <= 4 && first <= 1
  {
    if n == 0 then p
    else Or(CombedTo(p, x, high, first, n - 1), Down(Gather(Nibble(ByteOf(x, n - 1), high)), first + 2 * (n - 1)))
  }

  lemma CombedMore(p: Word, x: Word, high: bool, first: nat, n: nat)
    requires n < 4 && first <= 1
    ensures CombedTo(p, x, high, first, n + 1) ==
            Or(CombedTo(p, x, high, first, n), Down(Gather(Nibble(ByteOf(x, n), high)), first + 2 * n))
    ensures CombedTo(p, x, high, first, 0) == p
  {
    hide Or, Down, Gather, Nibble, ByteOf;
  }

  lemma OrDowns(p: Word, a: Word, b: Word, c: Word, d: Word)
    ensures Or(Or(Or(Or(p, Down(a, 0)), Down(b, 2)), Down(c, 4)), Down(d, 6)) == Or(p, Comb(a, b, c, d))
  {
    hide Or, Down;
    DownNone(a);
    OrFive(p, a, Down(b, 2), Down(c, 4), Down(d, 6));
  }

  lemma DownNone(x: Word)
    ensures Down(x, 0) == x
  {}

  lemma OrDownsMore(p: Word, a: Word, b: Word, c: Word, d: Word)
    ensures Or(Or(Or(Or(p, Down(a, 1)), Down(b, 3)), Down(c, 5)), Down(d, 7)) == Or(p, Down(Comb(a, b, c, d), 1))
  {
    hide Or, Down, Comb;
    CombDown(a, b, c, d);
    OrFive(p, Down(a, 1), Down(b, 3), Down(c, 5), Down(d, 7));
  }

  lemma CombDown(a: Word, b: Word, c: Word, d: Word)
    ensures Down(Comb(a, b, c, d), 1) == Or(Or(Or(Down(a, 1), Down(b, 3)), Down(c, 5)), Down(d, 7))
  {
    hide Or, Down;
    DownOr(Or(Or(a, Down(b, 2)), Down(c, 4)), Down(d, 6));
    DownOr(Or(a, Down(b, 2)), Down(c, 4));
    DownOr(a, Down(b, 2));
    DownThree(b);
    DownFive(c);
    DownSeven(d);
  }

  lemma DownOr(x: Word, y: Word)
    ensures Down(Or(x, y), 1) == Or(Down(x, 1), Down(y, 1))
  {}

  lemma DownThree(x: Word)
    ensures Down(Down(x, 2), 1) == Down(x, 3)
  {}

  lemma DownFive(x: Word)
    ensures Down(Down(x, 4), 1) == Down(x, 5)
  {}

  lemma DownSeven(x: Word)
    ensures Down(Down(x, 6), 1) == Down(x, 7)
  {}

  lemma OrFive(p: Word, a: Word, b: Word, c: Word, d: Word)
    ensures Or(Or(Or(Or(p, a), b), c), d) == Or(p, Or(Or(Or(a, b), c), d))
  {}

  lemma CombedAtEnd(p: Word, x: Word, high: bool, first: nat)
    requires first <= 1
    ensures CombedTo(p, x, high, first, 4) == Or(p, if first == 0 then Combed(x, high) else Down(Combed(x, high), 1))
  {
    hide CombedTo, Gather, Nibble, ByteOf, Down, Or, Comb;
    CombedMore(p, x, high, first, 0);
    CombedMore(p, x, high, first, 1);
    CombedMore(p, x, high, first, 2);
    CombedMore(p, x, high, first, 3);
    var a, b := Gather(Nibble(ByteOf(x, 0), high)), Gather(Nibble(ByteOf(x, 1), high));
    var c, d := Gather(Nibble(ByteOf(x, 2), high)), Gather(Nibble(ByteOf(x, 3), high));
    OrDowns(p, a, b, c, d);
    OrDownsMore(p, a, b, c, d);
  }

  lemma SmallNibble(c: Word, high: bool)
    ensures Nibble(c, high) < 16
  {}

  lemma OrNothing(x: Word)
    ensures Or(0, x) == x
  {}

  /** One loop of `ip_1` over the bytes of a half. */
  method AddCombed(x: Word, first: nat, p: Word, q: Word) returns (pl: Word, pr: Word)
    requires first <= 1
    ensures pl == CombedTo(p, x, false, first, 4) && pr == CombedTo(q, x, true, first, 4)
  {
    hide Gather, Nibble, ByteOf, Down, Or, CombedTo, FpTable;
    pl, pr := p, q;
    CombedMore(p, x, false, first, 0);
    CombedMore(q, x, true, first, 0);
    for i := 0 to 4
      invariant pl == CombedTo(p, x, false, first, i) && pr == CombedTo(q, x, true, first, i)
    {
      var c := ByteOf(x, i);
      SmallNibble(c, false);
      SmallNibble(c, true);
      TablesAre(Nibble(c, false));
      TablesAre(Nibble(c, true));
      CombedMore(p, x, false, first, i);
      CombedMore(q, x, true, first, i);
      pl := Or(pl, Down(FpTable(Nibble(c, false)), first + 2 * i));
      pr := Or(pr, Down(FpTable(Nibble(c, true)), first + 2 * i));
    }
  }

  /** `ip_1`. */
  method Ip1(l: Word, r: Word, b: array<bv8>)
    requires b.Length == 8
    modifies b
    ensures b[..] == Final(Halves(l, r))
  {
    hide Down, Or, CombedTo, Combed, Unpack;
    var pl, pr := AddCombed(l, 1, 0, 0);
    CombedAtEnd(0, l, false, 1);
    CombedAtEnd(0, l, true, 1);
    OrNothing(Down(Combed(l, false), 1));
    OrNothing(Down(Combed(l, true), 1));
    CombedAtEnd(pl, r, false, 0);
    CombedAtEnd(pr, r, true, 0);
    pl, pr := AddCombed(r, 0, pl, pr);
    Store(pl, b, 0);
    Store(pr, b, 4);
    assert b[..] == b[0..4] + b[4..8];
  }

  /** `unpack`, at b[at]. */
  method Store(x: Word, b: array<bv8>, at: nat)
    requires b.Length == 8 && at <= 4
    modifies b
    ensures b[at..at + 4] == Unpack(x) && b[..at] == old(b[..at]) && b[at + 4..] == old(b[at + 4..])
  {
    b[at] := ((x >> 24) & 0xff) as bv8;
    b[at + 1] := ((x >> 16) & 0xff) as bv8;
    b[at + 2] := ((x >> 8) & 0xff) as bv8;
    b[at + 3] := (x & 0xff) as bv8;
  }

  // ---- the rounds ----

  type RoundKey = seq<bv8>

  /** `mangle`: any function of a half and the eight bytes of a round's key. */
  type Mangle = (Word, RoundKey) -> Word

  function Round(f: Mangle, k: RoundKey, h: Halves): Halves { Halves(h.r, f(h.r, k) ^ h.l) }

  /** The key of the i-th round, going through the keys forwards or backwards. */
  function KeyAt(keys: seq<RoundKey>, ed: bool, i: nat): RoundKey
    requires |keys| == 16 && i < 16
  {
    if ed then keys[15 - i] else keys[i]
  }

  function Rounds(f: Mangle, keys: seq<RoundKey>, ed: bool, n: nat, h: Halves): Halves
    requires |keys| == 16 && n <= 16
  {
    if n == 0 then h else Round(f, KeyAt(keys, ed, n - 1), Rounds(f, keys, ed, n - 1, h))
  }

  function Swapped(h: Halves): Halves { Halves(h.r, h.l) }

  /** A round undoes itself on exchanged halves, whatever the round function. */
  lemma RoundUndone(f: Mangle, k: RoundKey, h: Halves)
    ensures Round(f, k, Swapped(Round(f, k, h))) == Swapped(h)
  {
    XorBack(f(h.r, k), h.l);
  }

  lemma XorBack(x: Word, y: Word)
    ensures x ^ (x ^ y) == y
  {}

  lemma {:induction false} RoundsUndone(f: Mangle, keys: seq<RoundKey>, ed: bool, n: nat, h: Halves)
    requires |keys| == 16 && n <= 16
    ensures Rounds(f, keys, !ed, n, Swapped(Rounds(f, keys, ed, 16, h))) == Swapped(Rounds(f, keys, ed, 16 - n, h))
  {
    if n > 0 {
      RoundsUndone(f, keys, ed, n - 1, h);
      RoundUndone(f, KeyAt(keys, ed, 16 - n), Rounds(f, keys, ed, 16 - n, h));
      assert KeyAt(keys, !ed, n - 1) == KeyAt(keys, ed, 16 - n);
      assert Rounds(f, keys, ed, 17 - n, h) == Round(f, KeyAt(keys, ed, 16 - n), Rounds(f, keys, ed, 16 - n, h));
    }
  }

  function Cipher(f: Mangle, keys: seq<RoundKey>, ed: bool, b: Block): Block
    requires |keys| == 16
  {
    Final(Swapped(Rounds(f, keys, ed, 16, Initial(b))))
  }

  /** Enciphering and deciphering undo each other, for every key, block and round function. */
  lemma CipherUndone(f: Mangle, keys: seq<RoundKey>, ed: bool, b: Block)
    requires |keys| == 16
    ensures Cipher(f, keys, !ed, Cipher(f, keys, ed, b)) == b
  {
    hide Initial, Final;
    var h := Initial(b);
    InitialOfFinal(Swapped(Rounds(f, keys, ed, 16, h)));
    RoundsUndone(f, keys, ed, 16, h);
    FinalOfInitial(b);
    RoundsNone(f, keys, ed, h);
  }

  lemma RoundsNone(f: Mangle, keys: seq<RoundKey>, ed: bool, h: Halves)
    requires |keys| == 16
    ensures Rounds(f, keys, ed, 0, h) == h
  {}

  /** `block_cipher`. */
  method BlockCipher(keys: seq<RoundKey>, v: array<bv8>, ed: bool, f: Mangle)
    requires |keys| == 16 && v.Length == 8
    modifies v
    ensures v[..] == Cipher(f, keys, ed, old(v[..]))
  {
    hide Initial, Final;
    var ek, eks := if ed then 15 else 0, if ed then -1 else 1;
    var l, r := Ip(v);
    ghost var h := Halves(l, r);
    RoundsNone(f, keys, ed, h);
    for i := 0 to 16
      invariant Halves(l, r) == Rounds(f, keys, ed, i, h)
      invariant ek == if ed then 15 - i else i
    {
      var t := r;
      r := f(r, keys[ek]) ^ l;
      ek := ek + eks;
      l := t;
    }
    Ip1(r, l, v);
  }

  // ---- triple encryption ----

  type TripleKey = k: seq<seq<RoundKey>> | |k| == 3 && forall i :: 0 <= i < 3 ==> |k[i]| == 16
    witness seq(3, i => seq(16, j => []))

  /** Bit i of the mode word. */
  function ModeBit(ende: nat, i: nat): bool
    requires i < 3
  {
    if i == 0 then ende % 2 == 1 else if i == 1 then ende / 2 % 2 == 1 else ende / 4 % 2 == 1
  }

  /** Pass i: a mode bit set means deciphering with the keys taken backwards. */
  function Pass(f: Mangle, keys: TripleKey, d: bool, i: nat, b: Block): Block
    requires i < 3
  {
    Cipher(f, if d then keys[2 - i] else keys[i], d, b)
  }

  function Triple(f: Mangle, keys: TripleKey, ende: nat, b: Block): Block {
    var b1 := Pass(f, keys, ModeBit(ende, 0), 0, b);
    var b2 := Pass(f, keys, ModeBit(ende, 1), 1, b1);
    Pass(f, keys, ModeBit(ende, 2), 2, b2)
  }

  /** The mode that undoes another: the bits reversed and complemented. */
  function Undoing(ende: nat): nat {
    (if ModeBit(ende, 0) then 0 else 4) + (if ModeBit(ende, 1) then 0 else 2) + (if ModeBit(ende, 2) then 0 else 1)
  }

  lemma UndoingBits(ende: nat)
    ensures forall i :: 0 <= i < 3 ==> ModeBit(Undoing(ende), i) == !ModeBit(ende, 2 - i)
  {}

  lemma PassUndone(f: Mangle, keys: TripleKey, d: bool, i: nat, b: Block)
    requires i < 3
    ensures Pass(f, keys, !d, 2 - i, Pass(f, keys, d, i, b)) == b
  {
    hide Cipher;
    CipherUndone(f, if d then keys[2 - i] else keys[i], d, b);
  }

  /** What was enciphered in any mode is deciphered in the mode with the bits reversed and complemented. */
  lemma TripleUndone(f: Mangle, keys: TripleKey, ende: nat, b: Block)
    ensures Triple(f, keys, Undoing(ende), Triple(f, keys, ende, b)) == b
  {
    hide Pass, Undoing, ModeBit;
    UndoingBits(ende);
    var b1 := Pass(f, keys, ModeBit(ende, 0), 0, b);
    var b2 := Pass(f, keys, ModeBit(ende, 1), 1, b1);
    PassUndone(f, keys, ModeBit(ende, 2), 2, b2);
    PassUndone(f, keys, ModeBit(ende, 1), 1, b1);
    PassUndone(f, keys, ModeBit(ende, 0), 0, b);
    assert ModeBit(Undoing(ende), 0) == !ModeBit(ende, 2 - 0);
    assert ModeBit(Undoing(ende), 1) == !ModeBit(ende, 2 - 1);
    assert ModeBit(Undoing(ende), 2) == !ModeBit(ende, 2 - 2);
  }

  /** `triple_block_cipher`. */
  method TripleBlockCipher(keys: TripleKey, text: array<bv8>, ende: nat, f: Mangle)
    requires text.Length == 8
    modifies text
    ensures text[..] == Triple(f, keys, ende, old(text[..]))
  {
    hide Cipher;
    var mode := ende;
    ghost var b0 := text[..];
    for i := 0 to 3
      invariant mode == if i == 0 then ende else if i == 1 then ende / 2 else if i == 2 then ende / 4 else ende / 8
      invariant text[..] == TripleTo(f, keys, ende, i, b0)
    {
      var d := mode % 2 == 1;
      assert d == ModeBit(ende, i);
      mode := mode / 2;
      BlockCipher(if d then keys[2 - i] else keys[i], text, d, f);
    }
    ThreePasses(f, keys, ende, b0);
  }

  lemma ThreePasses(f: Mangle, keys: TripleKey, ende: nat, b: Block)
    ensures TripleTo(f, keys, ende, 3, b) == Triple(f, keys, ende, b)
  {
    hide Pass, ModeBit;
    assert TripleTo(f, keys, ende, 1, b) == Pass(f, keys, ModeBit(ende, 0), 0, b);
  }

  ghost function TripleTo(f: Mangle, keys: TripleKey, ende: nat, n: nat, b: Block): Block
    requires n <= 3
  {
    if n == 0 then b else Pass(f, keys, ModeBit(ende, n - 1), n - 1, TripleTo(f, keys, ende, n - 1, b))
  }
}
