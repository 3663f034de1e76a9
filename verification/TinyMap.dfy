/** The bitmap of blocks in use: one bit a block, eight to a byte, as `emu/devtinyfs.c` keeps it. */
module TinyMap {
  import opened TinyFormat

  /** 1<<j on a byte. */
  function Mask(j: nat): bv8
    requires j < 8
  {
    match j
    case 0 => 1
    case 1 => 2
    case 2 => 4
    case 3 => 8
    case 4 => 16
    case 5 => 32
    case 6 => 64
    case _ => 128
  }

  predicate Bit(x: bv8, j: nat)
    requires j < 8
  {
    x & Mask(j) != 0
  }

  predicate IsSet(bits: seq<bv8>, b: nat)
    requires b < 8 * |bits|
  {
    Bit(bits[b / 8], b % 8)
  }

  function Marked(bits: seq<bv8>): set<nat> {
    set b | 0 <= b < 8 * |bits| && IsSet(bits, b)
  }

  lemma BitSet(x: bv8, j: nat, k: nat)
    requires j < 8 && k < 8
    ensures Bit(x | Mask(j), k) <==> k == j || Bit(x, k)
  {
    MaskDistinct(j, k);
    assert (x | Mask(j)) & Mask(k) == (x & Mask(k)) | (Mask(j) & Mask(k));
    if j == k {
      assert (x & Mask(k)) | Mask(k) == Mask(k);
    } else {
      assert (x & Mask(k)) | 0 == x & Mask(k);
    }
  }

  lemma BitClear(x: bv8, j: nat, k: nat)
    requires j < 8 && k < 8
    ensures Bit(x & !Mask(j), k) <==> k != j && Bit(x, k)
  {
    MaskDistinct(j, k);
    assert (x & !Mask(j)) & Mask(k) == x & (!Mask(j) & Mask(k));
    if j == k {
      assert !Mask(k) & Mask(k) == 0;
    } else {
      assert !Mask(j) & Mask(k) == Mask(k);
    }
  }

  lemma MaskDistinct(j: nat, k: nat)
    requires j < 8 && k < 8
    ensures Mask(j) & Mask(k) == if j == k then Mask(k) else 0
    ensures Mask(k) != 0
    ensures j != k ==> !Mask(j) & Mask(k) == Mask(k)
  {}

  lemma FullByte(x: bv8, k: nat)
    requires k < 8
    ensures x == 0xff ==> Bit(x, k)
    ensures (forall j :: 0 <= j < 8 ==> Bit(x, j)) ==> x == 0xff
  {
    assert 0xff & Mask(k) == Mask(k);
    if forall j :: 0 <= j < 8 ==> Bit(x, j) {
      assert Bit(x, 0) && Bit(x, 1) && Bit(x, 2) && Bit(x, 3);
      assert Bit(x, 4) && Bit(x, 5) && Bit(x, 6) && Bit(x, 7);
    }
  }

  lemma MarkedSet(bits: seq<bv8>, b: nat)
    requires b < 8 * |bits|
    ensures Marked(bits[b / 8 := bits[b / 8] | Mask(b % 8)]) == Marked(bits) + {b}
  {
    var bits' := bits[b / 8 := bits[b / 8] | Mask(b % 8)];
    forall c | 0 <= c < 8 * |bits|
      ensures IsSet(bits', c) <==> c == b || IsSet(bits, c)
    {
      BitSet(bits[b / 8], b % 8, c % 8);
    }
  }

  lemma MarkedClear(bits: seq<bv8>, b: nat)
    requires b < 8 * |bits|
    ensures Marked(bits[b / 8 := bits[b / 8] & !Mask(b % 8)]) == Marked(bits) - {b}
  {
    var bits' := bits[b / 8 := bits[b / 8] & !Mask(b % 8)];
    forall c | 0 <= c < 8 * |bits|
      ensures IsSet(bits', c) <==> c != b && IsSet(bits, c)
    {
      BitClear(bits[b / 8], b % 8, c % 8);
    }
  }

  method MapSet(bits: array<bv8>, bno: nat)
    requires bno < 8 * bits.Length
    modifies bits
    ensures Marked(bits[..]) == old(Marked(bits[..])) + {bno}
  {
    MarkedSet(bits[..], bno);
    ghost var was := bits[..];
    bits[bno / 8] := bits[bno / 8] | Mask(bno % 8);
    assert bits[..] == was[bno / 8 := was[bno / 8] | Mask(bno % 8)];
  }

  method MapClr(bits: array<bv8>, bno: nat)
    requires bno < 8 * bits.Length
    modifies bits
    ensures Marked(bits[..]) == old(Marked(bits[..])) - {bno}
  {
    MarkedClear(bits[..], bno);
    ghost var was := bits[..];
    bits[bno / 8] := bits[bno / 8] & !Mask(bno % 8);
    assert bits[..] == was[bno / 8 := was[bno / 8] & !Mask(bno % 8)];
  }

  method IsAlloced(bits: array<bv8>, bno: nat) returns (r: bool)
    requires bno < 8 * bits.Length
    ensures r <==> bno in Marked(bits[..])
  {
    r := bits[bno / 8] & Mask(bno % 8) != 0;
    assert bits[..][bno / 8] == bits[bno / 8];
    assert r <==> IsSet(bits[..], bno);
  }

  /** Takes the least free block, or reports that none is free.  Bits at and above nblocks
      are kept set, so they are never handed out. */
  method MapAlloc(bits: array<bv8>, nblocks: nat) returns (r: nat)
    requires nblocks <= NOTABNO && bits.Length == (nblocks + 7) / 8
    requires forall b :: nblocks <= b < 8 * bits.Length ==> b in Marked(bits[..])
    modifies bits
    ensures r == NOTABNO ==> bits[..] == old(bits[..])
    ensures r == NOTABNO <==> forall b :: 0 <= b < nblocks ==> b in old(Marked(bits[..]))
    ensures r != NOTABNO ==>
              && r < nblocks && r !in old(Marked(bits[..]))
              && (forall b :: 0 <= b < r ==> b in old(Marked(bits[..])))
              && Marked(bits[..]) == old(Marked(bits[..])) + {r}
  {
    ghost var was := bits[..];
    var lim := (nblocks + 7) / 8;
    for i := 0 to lim
      invariant bits[..] == was
      invariant forall b :: 0 <= b < 8 * i ==> b in Marked(was)
    {
      var x := bits[i];
      if x == 0xff {
        forall b | 8 * i <= b < 8 * (i + 1)
          ensures b in Marked(was)
        {
          FullByte(x, b % 8);
          assert IsSet(was, b);
        }
        continue;
      }
      for j := 0 to 8
        invariant bits[..] == was
        invariant forall k :: 0 <= k < j ==> Bit(x, k)
        invariant forall b :: 0 <= b < 8 * i + j ==> b in Marked(was)
      {
        if x & Mask(j) == 0 {
          assert !IsSet(was, 8 * i + j) by {
            assert (8 * i + j) / 8 == i && (8 * i + j) % 8 == j;
          }
          MapSet(bits, 8 * i + j);
          return 8 * i + j;
        }
        assert IsSet(was, 8 * i + j) by {
          assert (8 * i + j) / 8 == i && (8 * i + j) % 8 == j;
        }
      }
      FullByte(x, 0);
    }
    return NOTABNO;
  }
}
