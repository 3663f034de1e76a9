/**
 The mounted append-only file system.  `medium` is the block device; `trace` records, as ghost
 state, every content the device went through, so that a crash is any element of `trace`.
 */
module TinyFs {
  import opened Sequences
  import opened Octets
  import opened TinyFormat
  import opened TinySpec
  import opened TinyMount
  import opened TinyUpdate
  import opened TinyMap

  datatype Outcome = Done(n: nat) | AppendOnly | NoSpace

  /** Number of 44-byte blocks that hold n bytes. */
  function BlocksFor(n: nat): nat { (n + DLEN - 1) / DLEN }

  /** The blocks of a medium of n blocks that a map leaves free. */
  ghost function Spare(n: nat, marked: set<nat>): set<nat> {
    set b | 0 <= b < n && b !in marked
  }

  class Tfs {
    const medium: array<Block>
    var bits: array<bv8>
    var f: seq<Tfile>
    ghost var chains: seq<seq<nat>>
    ghost var own: Owners
    ghost var trace: seq<Medium>

    ghost predicate Geometry()
      reads this, medium, bits
    {
      && medium as object != bits
      && 3 <= medium.Length <= NOTABNO
      && bits.Length == (medium.Length + 7) / 8
      && (forall b :: medium.Length <= b < 8 * bits.Length ==> b in Marked(bits[..]))
      && |f| == |chains|
      && trace != [] && trace[|trace| - 1] == medium[..]
    }

    ghost predicate Valid()
      reads this, medium, bits
    {
      && Geometry()
      && Table(medium[..], f, chains, own, Marked(bits[..]), |f|)
    }

    /** What this code writes itself: no chain ends in an empty block, and names fit their field.
        A medium written by others may mount without. */
    ghost predicate Clean()
      requires |f| == |chains|
      reads this, medium
    {
      TidyTable(medium[..], f, chains) && AllNamed(f)
    }

    /** File i is empty, or its last block is not. */
    ghost predicate Exact(i: nat)
      requires i < |f| == |chains|
      reads this, medium
    {
      f[i].length == 0 || EndsFull(medium[..], chains[i])
    }

    /** What clients see: the live table entries with names and bytes. */
    ghost function View(): map<nat, File>
      requires |f| == |chains|
      reads this, medium
    {
      Files(medium[..], f, chains)
    }

    /** What a crash now would recover. */
    ghost function Durable(): Shown
      reads this, medium
    {
      OnMedium(medium[..], f, chains, own)
    }

    ghost function Free(): set<nat>
      reads this, medium, bits
    {
      Spare(medium.Length, Marked(bits[..]))
    }

    /** Every content of the medium since the trace had length k recovers to `shown`. */
    ghost predicate CrashesRecover(k: nat, end: nat, shown: Shown, tidy: bool)
      reads this
    {
      end <= |trace| && forall t :: k <= t < end ==> Recovers(trace[t], shown, tidy)
    }

    method WriteBlock(bno: nat, b: Block)
      requires bno < medium.Length
      modifies this`trace, medium
      ensures medium[..] == old(medium[..])[bno := b]
      ensures trace == old(trace) + [medium[..]]
    {
      medium[bno] := b;
      trace := trace + [medium[..]];
    }

    /** `writedata`: an end block of `len` bytes, or a data block linking to `next`. */
    method WriteData(bno: nat, next: nat, buf: seq<Byte>, last: bool)
      requires bno < medium.Length && |buf| <= DLEN
      modifies this`trace, medium
      ensures medium[..] == old(medium[..])[bno := if last then EncodeEnd(buf) else EncodeData(next, buf)]
      ensures trace == old(trace) + [medium[..]]
    {
      var tag, link := if last then TAG_END else TAG_DATA, if last then |buf| else next;
      var md := Complete([tag] + PutS(link) + buf + Zeros(DLEN - |buf|));
      WriteBlock(bno, md);
    }

    /** `writedir`: the directory block of an entry. */
    method WriteDir(bno: nat, dbno: nat, pin: nat, name: seq<Byte>)
      requires bno < medium.Length
      modifies this`trace, medium
      ensures medium[..] == old(medium[..])[bno := EncodeDir(dbno, pin, name)]
      ensures trace == old(trace) + [medium[..]]
    {
      var short := if |name| > NLEN - 1 then name[..NLEN - 1] else name;
      var md := Complete([TAG_DIR] + PutS(dbno) + PutS(pin) + short + Zeros(NLEN - |short|) + Zeros(14));
      WriteBlock(bno, md);
    }

    /** `freeblocks` along a path of data blocks that ends at an end block or links to bend. */
    method FreeBlocks(start: nat, bend: nat, ghost path: seq<nat>)
      requires medium as object != bits
      requires medium.Length <= NOTABNO && medium.Length <= 8 * bits.Length
      requires forall k :: 0 <= k < |path| ==> path[k] < medium.Length && path[k] != bend
      requires path == [] ==> start == bend || start == NOTABNO
      requires path != [] ==> start == path[0]
      requires forall k :: 0 <= k < |path| - 1 ==> LinkAt(medium[..], path, k)
      requires path != [] ==>
                 var last := At(medium[..], path[|path| - 1]);
                 last.End? || (last.Data? && last.next == bend)
      modifies bits
      ensures Marked(bits[..]) == old(Marked(bits[..])) - ToSet(path)
    {
      hide Decode;
      ghost var m := medium[..];
      var bno := start;
      ghost var k := 0;
      while bno != bend && bno != NOTABNO
        invariant 0 <= k <= |path| && medium[..] == m
        invariant k < |path| ==> bno == path[k]
        invariant k == |path| ==> bno == bend || bno == NOTABNO
        invariant Marked(bits[..]) == old(Marked(bits[..])) - ToSet(path[..k])
        decreases |path| - k
      {
        MapClr(bits, bno);
        assert path[..k + 1] == path[..k] + [path[k]];
        k := k + 1;
        var md := Validate(medium[bno], medium.Length);
        assert md == At(m, path[k - 1]);
        assert k < |path| ==> LinkAt(m, path, k - 1);
        if !md.Data? && !md.End? {
          break;
        }
        if md.End? {
          break;
        }
        bno := md.next;
      }
      assert path[..|path|] == path;
    }

    /** One round of the backward loop: lays a block holding `buf` before the blocks laid so far. */
    method LayOne(buf: seq<Byte>, dbno: nat, end: bool, ghost m0: Medium, ghost marked0: set<nat>,
                  ghost lay: seq<nat>, ghost text: seq<Byte>,
                  ghost tidy: bool)
      returns (bno: nat)
      requires Geometry() && Laid(m0, medium[..], marked0, Marked(bits[..]), lay, text)
      requires Table(m0, f, chains, own, marked0, |f|) && (tidy ==> TidyTable(m0, f, chains))
      requires 0 < |buf| <= DLEN && end == (lay == [])
      requires if lay == [] then medium[..] == m0 && Marked(bits[..]) == marked0 else dbno == lay[0] && |buf| == DLEN
      modifies this`trace, medium, bits
      ensures Geometry()
      ensures bno == NOTABNO <==> old(Free()) == {}
      ensures bno == NOTABNO ==> trace == old(trace) && medium[..] == old(medium[..]) && bits[..] == old(bits[..])
      ensures bno != NOTABNO ==>
                && bno in old(Free()) && Free() == old(Free()) - {bno}
                && trace == old(trace) + [medium[..]]
                && Laid(m0, medium[..], marked0, Marked(bits[..]), [bno] + lay, buf + text)
                && Recovers(medium[..], OnMedium(m0, f, chains, own), tidy)
    {
      hide Table, TidyTable, Decode, Laid, Recovers, Files, OnMedium, Text, EncodeEnd, EncodeData;
      ghost var m, marked := medium[..], Marked(bits[..]);
      bno := MapAlloc(bits, medium.Length);
      if bno == NOTABNO {
        return;
      }
      WriteData(bno, dbno, buf, end);
      if lay == [] {
        LayFirst(m0, marked0, bno, buf);
        LaidText(m0, m, marked0, marked, lay, text);
        assert [bno] + lay == [bno] && buf + text == buf;
      } else {
        LayNext(m0, m, marked0, marked, lay, text, bno, buf);
      }
      LaidHarmless(m0, medium[..], marked0, Marked(bits[..]), [bno] + lay, buf + text, f, chains, own, marked0, tidy);
    }

    /** The backward loop of `tinyfswrite`: lays the blocks that the data needs beyond the current
        last block, last one first, each linking to the one laid before.  Out of space, it gives
        every block back. */
    method LayBlocks(data: seq<Byte>, offset: nat, ghost tidy: bool)
      returns (ok: bool, dbno: nat, last: nat, ghost lay: seq<nat>)
      requires Valid() && data != [] && (tidy ==> Clean())
      modifies this`trace, medium, bits
      ensures Geometry() && old(trace) <= trace
      ensures CrashesRecover(|old(trace)|, |trace|, old(Durable()), tidy)
      ensures ok <==> BlocksFor(offset + |data|) - BlocksFor(offset) <= |old(Free())|
      ensures ok ==>
                && offset <= last <= offset + |data|
                && Laid(old(medium[..]), medium[..], old(Marked(bits[..])), Marked(bits[..]),
                        lay, data[last - offset..])
                && (lay == [] ==> last == offset + |data| && last <= BlocksFor(offset) * DLEN)
                && (lay != [] ==> dbno == lay[0] && last == BlocksFor(offset) * DLEN)
                && |Free()| == |old(Free())| - (BlocksFor(offset + |data|) - BlocksFor(offset))
      ensures !ok ==>
                && Valid() && (tidy ==> Clean())
                && Marked(bits[..]) == old(Marked(bits[..])) && View() == old(View()) && Durable() == old(Durable())
    {
      hide Table, TidyTable, Decode, Laid, Recovers, Files, OnMedium, Text, Marked, BlocksFor, Spare;
      ghost var m0, marked0, k0, shown, free0 := medium[..], Marked(bits[..]), |trace|, Durable(), Free();
      lay := [];
      dbno := NOTABNO;
      ok := true;
      var end := offset + |data|;
      last := end;
      var next := (last - 1) / DLEN * DLEN;
      BlockCount(end);
      LaidNone(m0, marked0);
      assert data[last - offset..] == [];
      while next >= offset
        invariant Geometry() && old(trace) <= trace && |medium[..]| == |m0|
        invariant next + DLEN == DLEN * (BlocksFor(end) - |lay|) && next >= -DLEN
        invariant offset <= last <= next + DLEN
        invariant lay == [] ==> last == end && dbno == NOTABNO && medium[..] == m0 && Marked(bits[..]) == marked0
        invariant lay != [] ==> last == next + DLEN < end && dbno == lay[0]
        invariant Laid(m0, medium[..], marked0, Marked(bits[..]), lay, data[last - offset..])
        invariant CrashesRecover(k0, |trace|, shown, tidy)
        invariant |Free()| == |free0| - |lay|
        decreases next
      {
        ghost var text := data[last - offset..];
        var buf := data[next - offset..last - offset];
        assert data[next - offset..] == buf + text;
        var bno := LayOne(buf, dbno, last == end, m0, marked0, lay, text, tidy);
        if bno == NOTABNO {
          BlockRange(offset, BlocksFor(end) - |lay| - 1);
          LaidPath(m0, medium[..], marked0, Marked(bits[..]), lay, text);
          LaidHarmless(m0, medium[..], marked0, Marked(bits[..]), lay, text, f, chains, own, marked0, tidy);
          FreeBlocks(dbno, NOTABNO, lay);
          ok := false;
          return;
        }
        lay := [bno] + lay;
        dbno := bno;
        last := next;
        next := next - DLEN;
      }
      BlockRange(offset, BlocksFor(end) - |lay|);
    }

    /** The walk of `tinyfswrite` to the last block of file i, which holds `used` bytes. */
    method LastBlock(i: nat, offset: nat) returns (bno: nat, used: nat, buf: seq<Byte>)
      requires i < |f| == |chains| && EntryOk(medium[..], f[i], chains[i])
      requires medium.Length <= NOTABNO
      requires offset == f[i].length
      ensures bno == chains[i][|chains[i]| - 1] && bno < medium.Length && used == At(medium[..], bno).len
      ensures offset == DLEN * (|chains[i]| - 1) + used
      ensures used <= |buf| && used <= DLEN && |Bytes(At(medium[..], bno))| == used
      ensures buf[..used] == Bytes(At(medium[..], bno))
    {
      hide Decode, NoDup;
      ghost var c, m, k := chains[i], medium[..], 0;
      TextLength(m, c);
      var next := 0;
      bno := f[i].dbno;
      while true
        invariant 0 <= k < |c| && bno == c[k] && next == DLEN * k
        decreases |c| - k
      {
        DecodedData(medium[bno], medium.Length);
        var md := Validate(medium[bno], medium.Length);
        assert md == At(m, c[k]);
        assert k < |c| - 1 ==> LinkAt(m, c, k);
        if md.End? {
          assert next + DLEN >= offset;  // no panic
          used, buf := md.len, md.data;
          return;
        }
        next := next + DLEN;
        assert next <= offset;  // no panic
        bno := md.next;
        k := k + 1;
      }
    }

    /** `tinyfswrite`.  The data is appended or, without space, nothing changes; and whatever block
        write a crash comes after, the files recovered are the old ones, until the last block
        write puts the new ones in place.  One exception: behind an empty last block of a file
        with data, 44 zero bytes come before the new ones, uncounted by the file's length. */
    method Write(i: nat, data: seq<Byte>, offset: nat) returns (r: Outcome)
      requires Valid() && i < |f| && f[i] != NOFILE && (f[i].length == 0 ==> Storable(f[i].name, f[i].pin))
      modifies this, medium, bits
      ensures Geometry() && bits == old(bits) && old(trace) <= trace && (old(Clean()) ==> Clean())
      ensures r == if data == [] then Done(0)
                   else if offset != old(|View()[i].bytes|) then AppendOnly
                   else if |old(Free())| < BlocksFor(offset + |data|) - BlocksFor(offset) then NoSpace
                   else Done(|data|)
      ensures r != Done(|data|) || data == [] ==>
                && Valid() && View() == old(View()) && Durable() == old(Durable())
                && Marked(bits[..]) == old(Marked(bits[..]))
                && CrashesRecover(|old(trace)|, |trace|, old(Durable()), old(Clean()))
      ensures r == Done(|data|) && data != [] ==>
                var was := old(View()[i]);
                var bytes := if old(Exact(i)) then was.bytes + data else was.bytes + Zeros(DLEN) + data;
                && View() == old(View())[i := was.(bytes := bytes)]
                && Durable() == old(Durable())[old(f[i].bno) := (was.name, was.pin, bytes)]
                && CrashesRecover(|old(trace)|, |trace| - 1, old(Durable()), old(Clean()))
                && CrashesRecover(|trace| - 1, |trace|, Durable(), old(Clean()))
                && i < |f| && f[i].length == |was.bytes| + |data|
                && |Free()| == |old(Free())| - (BlocksFor(offset + |data|) - BlocksFor(offset))
                && (Valid() <==> old(Exact(i)))
    {
      hide Table, TidyTable, Decode, Laid, Recovers, OnMedium, Files, Text, EntryOk, TidySlot, Marked, BlocksFor,
           EndsFull;
      if data == [] {
        return Done(0);
      }
      SlotFacts(i);
      if offset != f[i].length {
        return AppendOnly;
      }
      ghost var m0, marked0, tidy := medium[..], Marked(bits[..]), Clean();
      var ok, dbno, last, lay := LayBlocks(data, offset, tidy);
      if !ok {
        return NoSpace;
      }
      ghost var m, text := medium[..], data[last - offset..];
      LaidPath(m0, m, marked0, Marked(bits[..]), lay, text);
      LaidHarmless(m0, m, marked0, Marked(bits[..]), lay, text, f, chains, own, Marked(bits[..]), tidy);
      LaidEnds(m0, m, marked0, Marked(bits[..]), lay, text, chains[i]);
      ghost var free := Free();
      LinkUp(i, dbno, data, last, m0, marked0, lay, tidy);
      assert Free() == free;
      r := Done(|data|);
    }

    /** The last block write of an append, to the directory block of an empty file or to the last
        block of another. */
    method LinkUp(i: nat, dbno: nat, data: seq<Byte>, last: nat, ghost m0: Medium, ghost marked0: set<nat>,
                  ghost lay: seq<nat>, ghost tidy: bool)
      requires Valid() && i < |f| && f[i] != NOFILE && data != [] && (tidy ==> Clean())
      requires f[i].length == 0 ==> Storable(f[i].name, f[i].pin)
      requires f[i].length <= last <= f[i].length + |data|
      requires Laid(m0, medium[..], marked0, Marked(bits[..]), lay, data[last - f[i].length..]) && own.Keys <= marked0
      requires lay == [] ==> last == f[i].length + |data| && last <= BlocksFor(f[i].length) * DLEN
      requires lay != [] ==> dbno == lay[0] && last == BlocksFor(f[i].length) * DLEN
      modifies this, medium
      ensures bits == old(bits) && Geometry() && trace == old(trace) + [medium[..]] && (tidy ==> Clean())
      ensures Valid() <==> old(Exact(i))
      ensures |f| == old(|f|) && f[i].length == old(f[i].length) + |data|
      ensures var was := old(View()[i]);
              var bytes := if old(Exact(i)) then was.bytes + data else was.bytes + Zeros(DLEN) + data;
              && View() == old(View())[i := was.(bytes := bytes)]
              && Durable() == old(Durable())[old(f[i].bno) := (was.name, was.pin, bytes)]
      ensures Recovers(medium[..], Durable(), tidy)
    {
      hide Table, TidyTable, Decode, Laid, Recovers, OnMedium, Text, EntryOk, TidySlot, Marked, BlocksFor, EndsFull;
      SlotFacts(i);
      if f[i].length == 0 {
        BlockRange(0, 0);
        ghost var text := data[last..];
        assert data == text && View()[i].bytes + data == data;
        LinkHead(i, dbno, |data|, m0, marked0, lay, text, tidy);
      } else {
        LinkTail(i, dbno, data, last, m0, marked0, lay, tidy);
      }
    }

    /** Takes the new entry of file i into the table after the block write that put it in place.
        The entry's length may miss `gap` bytes of its chain. */
    method Adopt(i: nat, f': Tfile, ghost m: Medium, ghost b: nat, ghost c': seq<nat>, ghost gap: nat, ghost tidy: bool)
      requires Geometry() && i < |f| && b < |m| == medium.Length && medium[..] == m[b := medium[b]]
      requires Table(m, f, chains, own, Marked(bits[..]), |f|)
      requires tidy ==>
                 TidyTable(m, f, chains) && AllNamed(f) && TidySlot(medium[..], f'.(length := f'.length + gap), c')
      requires f[i] != NOFILE && f'.length > 0 && f'.bno == f[i].bno && f'.name == f[i].name && f'.pin == f[i].pin
      requires b == f'.bno || (b in chains[i] && !At(medium[..], b).Dir?)
      requires EntryOk(medium[..], f'.(length := f'.length + gap), c') && c' != []
      requires forall x :: x in c' ==> x in Marked(bits[..]) && (x in chains[i] || x !in own)
      modifies this`f, this`chains, this`own
      ensures Geometry() && (Valid() <==> gap == 0) && (tidy ==> Clean())
      ensures |f| == old(|f|) && f[i] == f'
      ensures View() == old(Files(m, f, chains))[i := File(f'.name, f'.pin, Text(medium[..], c'))]
      ensures Durable() == old(OnMedium(m, f, chains, own))[f'.bno := (f'.name, f'.pin, Text(medium[..], c'))]
      ensures Recovers(medium[..], Durable(), tidy)
    {
      hide Table, TidyTable, Decode, Recovers, Files, OnMedium, Text, EntryOk, TidySlot, Reown, Marked;
      ghost var full := f'.(length := f'.length + gap);
      Relink(m, b, medium[b], f, chains, own, Marked(bits[..]), i, full, c', tidy);
      own := Reown(own, i, full, c');
      Recount(medium[..], f, chains, own, Marked(bits[..]), i, full, f', c');
      f, chains := f[i := f'], chains[i := c'];
    }

    /** The first blocks of an empty file: the directory block is rewritten to head them. */
    method LinkHead(i: nat, dbno: nat, n: nat, ghost m0: Medium, ghost marked0: set<nat>, ghost lay: seq<nat>,
                    ghost text: seq<Byte>, ghost tidy: bool)
      requires Valid() && i < |f| && f[i] != NOFILE && f[i].length == 0 && Storable(f[i].name, f[i].pin)
      requires tidy ==> Clean()
      requires Laid(m0, medium[..], marked0, Marked(bits[..]), lay, text) && own.Keys <= marked0
      requires lay != [] && dbno == lay[0] && n == |text|
      modifies this, medium
      ensures bits == old(bits) && Valid() && trace == old(trace) + [medium[..]] && (tidy ==> Clean())
      ensures |f| == old(|f|) && f[i].length == n
      ensures View() == old(View())[i := old(View()[i]).(bytes := text)]
      ensures Durable() == old(Durable())[old(f[i].bno) := (old(f[i].name), old(f[i].pin), text)]
      ensures Recovers(medium[..], Durable(), tidy)
    {
      hide Table, TidyTable, Decode, Laid, Recovers, Files, OnMedium, Text, EntryOk, TidySlot, EncodeDir, Marked;
      SlotFacts(i);
      ghost var m, marked := medium[..], Marked(bits[..]);
      LaidPath(m0, m, marked0, marked, lay, text);
      LaidText(m0, m, marked0, marked, lay, text);
      WriteDir(f[i].bno, dbno, f[i].pin, f[i].name);
      LinkFirst(m0, m, marked0, marked, lay, text, f[i]);
      Adopt(i, f[i].(dbno := dbno, length := f[i].length + n), m, f[i].bno, lay, 0, tidy);
    }

    /** The last block is rewritten with as much data as fits, linking to the new blocks if any. */
    method LinkTail(i: nat, dbno: nat, data: seq<Byte>, last: nat, ghost m0: Medium, ghost marked0: set<nat>,
                    ghost lay: seq<nat>, ghost tidy: bool)
      requires Valid() && i < |f| && f[i] != NOFILE && f[i].length > 0 && data != [] && (tidy ==> Clean())
      requires f[i].length <= last <= f[i].length + |data|
      requires Laid(m0, medium[..], marked0, Marked(bits[..]), lay, data[last - f[i].length..]) && own.Keys <= marked0
      requires lay == [] ==> last == f[i].length + |data| && last <= BlocksFor(f[i].length) * DLEN
      requires lay != [] ==> dbno == lay[0] && last == BlocksFor(f[i].length) * DLEN
      modifies this, medium
      ensures bits == old(bits) && Geometry() && trace == old(trace) + [medium[..]] && (tidy ==> Clean())
      ensures Valid() <==> old(EndsFull(medium[..], chains[i]))
      ensures |f| == old(|f|) && f[i].length == old(f[i].length) + |data|
      ensures var was := old(View()[i]);
              var bytes := if old(EndsFull(medium[..], chains[i])) then was.bytes + data
                  else was.bytes + Zeros(DLEN) + data;
              && View() == old(View())[i := was.(bytes := bytes)]
              && Durable() == old(Durable())[old(f[i].bno) := (was.name, was.pin, bytes)]
      ensures Recovers(medium[..], Durable(), tidy)
    {
      hide Table, TidyTable, Decode, Laid, Recovers, Files, OnMedium, Text, EntryOk, TidySlot, EncodeEnd, EncodeData,
           Marked, BlocksFor;
      SlotFacts(i);
      ghost var m, marked, c := medium[..], Marked(bits[..]), chains[i];
      var offset := f[i].length;
      ghost var text := data[last - offset..];
      LaidPath(m0, m, marked0, marked, lay, text);
      var bno, used, buf := LastBlock(i, offset);
      FillFits(|c| - 1, used, last, offset);
      var fill := data[..last - offset];
      WriteData(bno, dbno, buf[..used] + fill, last == offset + |data|);
      var f' := f[i].(length := offset + |data|);
      assert fill + text == data;
      LaidText(m0, m, marked0, marked, lay, text);
      if last == offset + |data| {
        assert fill == data;
        LinkInPlace(m, f[i], c, data);
        Adopt(i, f', m, bno, c, 0, tidy);
      } else {
        LinkOn(m0, m, marked0, marked, lay, text, f[i], c, fill);
        ghost var gap := DLEN - used - |fill|;
        GapText(Text(m, c), fill, gap, text, data);
        Adopt(i, f', m, bno, c + lay, gap, tidy);
      }
    }

    /** `tinyfsread`: exactly the requested part of what was appended. */
    method Read(i: nat, count: nat, offset: nat) returns (p: seq<Byte>)
      requires Valid() && i < |f| && f[i] != NOFILE
      ensures i in View()
      ensures var t := View()[i].bytes;
              p == if offset >= |t| then [] else if offset + count >= |t| then t[offset..]
                  else t[offset..offset + count]
    {
      hide Table, TidyTable, Decode, Text, TidySlot, Marked, EntryOk, NoDup;
      SlotFacts(i);
      if offset >= f[i].length {
        return [];
      }
      var n := if count + offset >= f[i].length then f[i].length - offset else count;
      ghost var m, c := medium[..], chains[i];
      ghost var t := Text(m, c);
      var bno, k := Seek(i, offset);
      var off := offset % DLEN;
      p := [];
      var sofar := 0;
      while sofar < n
        invariant 0 <= sofar <= n && 0 <= off < DLEN
        invariant sofar < n ==> 0 <= k < |c| && bno == c[k] && DLEN * k + off == offset + sofar
        invariant p == t[offset..offset + sofar]
      {
        var bytes, next := ReadBlock(i, bno, k, off, offset + sofar);
        var len := if |bytes| > n - sofar then n - sofar else |bytes|;
        SliceGrow(t, offset, offset + sofar, bytes, len);
        p, sofar := p + bytes[..len], sofar + len;
        assert p == t[offset..offset + sofar];
        bno, off, k := next, 0, k + 1;
      }
      assert offset + n == |t| ==> t[offset..offset + n] == t[offset..];
    }

    /** The walk of `tinyfsread` to the block that holds the byte at `offset`. */
    method Seek(i: nat, offset: nat) returns (bno: nat, ghost k: nat)
      requires i < |f| == |chains| && EntryOk(medium[..], f[i], chains[i]) && offset < f[i].length
      ensures k == offset / DLEN < |chains[i]| && bno == chains[i][k]
    {
      hide Decode, Text, NoDup;
      ghost var m, c := medium[..], chains[i];
      TextLength(m, c);
      DecodedData(m[c[|c| - 1]], |m|);
      var sofar := 0;
      k, bno := 0, f[i].dbno;
      while sofar + DLEN <= offset
        invariant sofar == DLEN * k <= offset && k < |c| && bno == c[k]
      {
        assert LinkAt(m, c, k);
        var md := Validate(medium[bno], medium.Length);
        bno := md.next;
        sofar := sofar + DLEN;
        k := k + 1;
      }
    }

    /** One block of a read, from byte `off` of the block on. */
    method ReadBlock(i: nat, bno: nat, ghost k: nat, off: nat, ghost at: nat) returns (bytes: seq<Byte>, next: nat)
      requires i < |f| == |chains| && EntryOk(medium[..], f[i], chains[i])
      requires k < |chains[i]| && bno == chains[i][k] && off < DLEN && at == DLEN * k + off < f[i].length
      ensures bytes != [] && at + |bytes| <= |Text(medium[..], chains[i])|
      ensures bytes == Text(medium[..], chains[i])[at..at + |bytes|]
      ensures at + |bytes| < f[i].length ==>
                k + 1 < |chains[i]| && next == chains[i][k + 1] && at + |bytes| == DLEN * (k + 1)
    {
      hide Decode, Text, NoDup, Bytes;
      ghost var m, c := medium[..], chains[i];
      TextLength(m, c);
      TextAt(m, c, k);
      DecodedData(m[c[k]], |m|);
      assert k < |c| - 1 ==> LinkAt(m, c, k);
      var md := Validate(medium[bno], medium.Length);
      assert md == At(m, c[k]);
      var all := Bytes(md);
      SliceIn(Text(m, c), DLEN * k, all, off, |all| - off);
      bytes := all[off..];
      next := if md.Data? then md.next else 0;
    }

    /** `newfile`: an empty file in the first free entry.  A crash does not recover it. */
    method NewFile(name: seq<Byte>, pin: nat) returns (r: nat)
      requires Valid() && Named() && name != [] && 0 !in name && pin <= 0xffff
      modifies this, medium, bits
      ensures bits == old(bits) && Valid() && Named() && old(trace) <= trace && (old(Clean()) ==> Clean())
      ensures r == |f| <==> old(Free()) == {}
      ensures r == |f| ==>
                && View() == old(View()) && Durable() == old(Durable()) && Marked(bits[..]) == old(Marked(bits[..]))
                && trace == old(trace)
      ensures r != |f| ==>
                && r < |f| && r !in old(View()) && (forall j :: 0 <= j < r ==> j in old(View()))
                && View() == old(View())[r := File(if |name| < NLEN then name else name[..NLEN - 1], pin, [])]
                && Durable() == old(Durable()) && |Free()| == |old(Free())| - 1
                && CrashesRecover(|old(trace)|, |trace|, Durable(), old(Clean()))
    {
      hide Table, TidyTable, Decode, Text, TidySlot, Recovers, OnMedium, EncodeDir, Files, Marked, Reown;
      ghost var tidy := Clean();
      var i := FreeSlot();
      var short := if |name| > NLEN - 1 then name[..NLEN - 1] else name;
      ghost var m, marked := medium[..], Marked(bits[..]);
      var bno := MapAlloc(bits, medium.Length);
      if bno == NOTABNO {
        return |f|;
      }
      assert bno in old(Free());
      var f' := Tfile(short, bno, NOTABNO, pin, 0);
      Create(m, f, chains, own, marked, i, f', tidy);
      WriteDir(bno, NOTABNO, pin, short);
      f := f[i := f'];
      own := Reown(own, i, f', []);
      assert Free() == old(Free()) - {bno};
      r := i;
    }

    /** No live entry has an empty name, which marks a free entry. */
    ghost predicate Named()
      reads this
    {
      forall j :: 0 <= j < |f| && f[j] != NOFILE ==> f[j].name != []
    }

    /** The first free entry of the table, which grows if there is none. */
    method FreeSlot() returns (i: nat)
      requires Valid() && Named()
      modifies this`f, this`chains
      ensures Valid() && Named() && i < |f| && f[i] == NOFILE && (old(Clean()) ==> Clean())
      ensures i !in View() && forall j :: 0 <= j < i ==> j in View()
      ensures View() == old(View()) && Durable() == old(Durable())
    {
      hide Table, TidyTable, Decode, Text, OnMedium;
      i := 0;
      while i < |f| && f[i].name != []
        invariant 0 <= i <= |f|
        invariant forall j :: 0 <= j < i ==> f[j] != NOFILE
      {
        i := i + 1;
      }
      if i == |f| {
        ExtendTable(medium[..], f, chains, own, Marked(bits[..]));
        f, chains := f + [NOFILE], chains + [[]];
      }
    }

    /** `tinyfsremove`: one block write takes the file away, and all its blocks become free. */
    method Remove(i: nat)
      requires Valid() && i < |f| && f[i] != NOFILE
      modifies this, medium, bits
      ensures bits == old(bits) && Valid() && (old(Clean()) ==> Clean()) && (old(Named()) ==> Named())
      ensures View() == old(View()) - {i}
      ensures Durable() == old(Durable()) - {old(f[i].bno)}
      ensures Marked(bits[..]) == old(Marked(bits[..])) - ToSet(old(chains[i])) - {old(f[i].bno)}
      ensures |Free()| == |old(Free())| + |old(chains[i])| + 1
      ensures trace == old(trace) + [medium[..]] && Recovers(medium[..], Durable(), old(Clean()))
    {
      hide Table, TidyTable, Decode, Text, TidySlot, Recovers, OnMedium, Files, Blank, NoDup, Marked, Spare;
      SlotFacts(i);
      ghost var m, marked, tidy := medium[..], Marked(bits[..]), Clean();
      Unlink(m, f, chains, own, marked, i, tidy);
      SlotBlocks(i);
      FreeBlocks(f[i].dbno, NOTABNO, chains[i]);
      WriteBlock(f[i].bno, Blank());
      MapClr(bits, f[i].bno);
      own := Reown(own, i, NOFILE, []);
      Regained(medium.Length, marked, chains[i], f[i].bno);
      f, chains := f[i := NOFILE], chains[i := []];
    }

    // ---- mounting ----

    ghost function Low(): set<nat>
      reads this, medium, bits
    {
      set b | b in Marked(bits[..]) && b < medium.Length
    }

    /** The state of mounting as the specification sees it. */
    ghost function State(): Mounted
      reads this, medium, bits
    {
      Mounted(medium[..], f, Low())
    }

    ghost predicate Bare()
      reads this, medium, bits
    {
      && medium as object != bits
      && 3 <= medium.Length <= NOTABNO
      && bits.Length == (medium.Length + 7) / 8
      && (forall b :: medium.Length <= b < 8 * bits.Length ==> b in Marked(bits[..]))
      && trace != [] && trace[|trace| - 1] == medium[..]
    }

    constructor (m: array<Block>)
      requires 3 <= m.Length <= NOTABNO
      ensures medium == m && fresh(bits) && Bare() && f == [] && Low() == {}
    {
      medium := m;
      var zero := new bv8[(m.Length + 7) / 8](i => 0);
      bits := zero;
      f, chains, own, trace := [], [], map[], [m[..]];
      new;
      assert Marked(bits[..]) == {};
      var bno := m.Length;
      while bno < 8 * bits.Length
        invariant m.Length <= bno <= 8 * bits.Length && bits == zero && medium as object != bits
        invariant forall b :: b in Marked(bits[..]) <==> m.Length <= b < bno
        invariant trace == [medium[..]] && f == []
      {
        MapSet(bits, bno);
        bno := bno + 1;
      }
    }

    /** The first pass of `tfsinit`: every directory block is listed and marked. */
    method FindFiles()
      requires Bare() && f == [] && Low() == {}
      modifies this`f, bits
      ensures Bare() && medium[..] == old(medium[..])
      ensures State() == Mounted(medium[..], Found(medium[..], medium.Length), ToSet(Dirs(medium[..], medium.Length)))
    {
      hide Decode, Marked, Found, Dirs;
      ghost var m := medium[..];
      FoundStep(m, 0);
      for bno := 0 to medium.Length
        invariant Bare() && medium[..] == m
        invariant f == Found(m, bno) && Low() == ToSet(Dirs(m, bno))
      {
        FoundStep(m, bno + 1);
        var md := Validate(medium[bno], medium.Length);
        assert md == At(m, bno);
        if md.Dir? {
          MapSet(bits, bno);
          f := f + [Tfile(md.name, bno, md.dbno, md.pin, 0)];
        }
      }
    }

    /** `freefile` during mounting: gives back the blocks before `bend` and blanks the entry. */
    method Purge(i: nat, bend: nat, ghost visited: seq<nat>)
      requires Bare() && i < |f| && f[i].bno < medium.Length && f[i].dbno < medium.Length
      requires ghost var w := Follow(medium[..], Low() - ToSet(visited), f[i].dbno);
               !w.complete && w.visited == visited && w.stop == bend
      modifies this`f, this`trace, medium, bits
      ensures Bare() && old(trace) <= trace
      ensures State() == Mounted(old(medium[..])[old(f[i].bno) := Blank()], old(f)[i := NOFILE],
                                 old(Low()) - ToSet(Before(visited, bend)) - {old(f[i].bno)})
    {
      hide Decode, Marked, Blank, Follow;
      BeforePath(medium[..], Low() - ToSet(visited), f[i].dbno);
      FreeBlocks(f[i].dbno, bend, Before(visited, bend));
      WriteBlock(f[i].bno, Blank());
      MapClr(bits, f[i].bno);
      f := f[i := NOFILE];
    }

    /** The second pass of `tfsinit` for entry i: the chain is followed, marked and measured, or
        the file is purged. */
    method FollowFile(i: nat)
      requires Bare() && i < |f| && f[i].bno < medium.Length && f[i].dbno < medium.Length && f[i].length == 0
      modifies this`f, this`trace, medium, bits
      ensures Bare() && old(trace) <= trace
      ensures State() == old(Visit(State(), i))
      ensures |f| == |old(f)| && forall j :: 0 <= j < |f| && j != i ==> f[j] == old(f[j])
    {
      hide Decode, Marked, Walking, Follow, Text;
      ghost var m, low, start, was := medium[..], Low(), f[i].dbno, f;
      ghost var visited: seq<nat> := [];
      var bno: nat := f[i].dbno;
      WalkStart(m, low, start);
      while true
        invariant Bare() && trace == old(trace) && medium[..] == m && bno < |m|
        invariant |f| == |was| && f == was[i := was[i].(length := f[i].length)]
        invariant Low() == low + ToSet(visited)
        invariant Walking(m, low, start, visited, bno, f[i].length)
        decreases Unmarked(m, low + ToSet(visited))
      {
        DecodedData(m[bno], |m|);
        WalkStep(m, low, start, visited, bno, f[i].length);
        var used := IsAlloced(bits, bno);
        var md := Validate(medium[bno], medium.Length);
        assert md == At(m, bno);
        if used || !(md.Data? || md.End?) {
          Purge(i, bno, visited);
          return;
        }
        MapSet(bits, bno);
        if md.End? {
          f := f[i := f[i].(length := f[i].length + md.len)];
          return;
        }
        f := f[i := f[i].(length := f[i].length + DLEN)];
        visited := visited + [bno];
        bno := md.next;
      }
    }

    /** The second pass of `tfsinit`. */
    method FollowFiles()
      requires Bare()
      requires forall j :: 0 <= j < |f| ==> f[j].bno < medium.Length && f[j].dbno < medium.Length && f[j].length == 0
      modifies this`f, this`trace, medium, bits
      ensures Bare() && old(trace) <= trace
      ensures Pending(old(State()), 0) && State() == Survey(old(State()), 0)
    {
      hide Visit, Marked;
      ghost var s0 := State();
      var i := 0;
      while i < |f|
        invariant Bare() && old(trace) <= trace && i <= |f|
        invariant Pending(s0, 0) && Pending(State(), i) && Survey(State(), i) == Survey(s0, 0)
        invariant forall j :: i <= j < |f| ==> f[j].length == 0
      {
        FollowFile(i);
        i := i + 1;
      }
    }

    /** The blocks of a file are in use, and none counts twice. */
    lemma SlotBlocks(i: nat)
      requires Valid() && i < |f| && f[i] != NOFILE
      ensures NoDup(chains[i]) && f[i].bno !in chains[i] && f[i].bno in Marked(bits[..])
      ensures forall x :: x in chains[i] ==> x < medium.Length && x in Marked(bits[..])
    {
      hide Decode, Text;
      SlotFacts(i);
      SlotEmpty(medium[..], f, chains, own, Marked(bits[..]), i);
      if f[i].bno in chains[i] {
        CellKinds(medium[..], chains[i], f[i].bno);
      }
    }

    lemma SlotFacts(i: nat)
      requires Valid() && i < |f| && f[i] != NOFILE
      ensures i in View() && View()[i] == File(f[i].name, f[i].pin, Text(medium[..], chains[i]))
      ensures f[i].bno < medium.Length && f[i].bno in own
      ensures f[i].length == |Text(medium[..], chains[i])|
      ensures chains[i] == [] ==> f[i].length == 0 && f[i].dbno == NOTABNO
      ensures chains[i] != [] ==> EntryOk(medium[..], f[i], chains[i])
      ensures chains[i] != [] ==>
                var last := chains[i][|chains[i]| - 1];
                last in chains[i] && last < medium.Length && At(medium[..], last).End?
      ensures Clean() ==> Exact(i) && WellNamed(f[i].name, f[i].pin)
      ensures forall x :: x in chains[i] ==> x in own && x in Marked(bits[..])
      ensures own.Keys <= Marked(bits[..])
    {
      hide Decode, Text;
      ghost var m := medium[..];
      assert SlotAt(m, f, chains, own, |f|, i);
      if chains[i] != [] {
        assert Clean() ==> TidySlot(m, f[i], chains[i]);
        TextLength(m, chains[i]);
      } else {
        TextEmpty(m);
      }
    }
  }

  /** What a removal gives back: the chain and the directory block. */
  lemma Regained(n: nat, marked: set<nat>, c: seq<nat>, b: nat)
    requires NoDup(c) && b !in c && b in marked && b < n && forall x :: x in c ==> x < n && x in marked
    ensures |Spare(n, marked - ToSet(c) - {b})| == |Spare(n, marked)| + |c| + 1
  {
    SetSize(c);
    assert Spare(n, marked - ToSet(c) - {b}) == Spare(n, marked) + ToSet(c) + {b};
  }

  lemma {:induction false} SetSize(c: seq<nat>)
    requires NoDup(c)
    ensures |ToSet(c)| == |c|
  {
    if c != [] {
      var d := c[..|c| - 1];
      SetSize(d);
      assert ToSet(c) == ToSet(d) + {c[|c| - 1]};
    }
  }

  lemma BlockCount(n: nat)
    ensures n > 0 ==> (n - 1) / DLEN * DLEN + DLEN == DLEN * BlocksFor(n)
  {}

  lemma BlockRange(offset: nat, q: int)
    ensures offset <= DLEN * q ==> BlocksFor(offset) <= q
    ensures DLEN * (q - 1) < offset <= DLEN * q ==> BlocksFor(offset) == q
  {}

  /** How much of the new data goes to the last block of q full blocks and `used` bytes. */
  lemma FillFits(q: nat, used: nat, last: nat, offset: nat)
    requires offset == DLEN * q + used && used <= DLEN && offset <= last
    ensures BlocksFor(offset) == if used == 0 then q else q + 1
    ensures last <= BlocksFor(offset) * DLEN ==> used + (last - offset) <= DLEN
    ensures last == BlocksFor(offset) * DLEN ==> used + (last - offset) == if used == 0 then 0 else DLEN
  {}

  /** The bytes of a lengthened chain: the old ones, the gap behind an empty last block, the new. */
  lemma GapText(text: seq<Byte>, fill: seq<Byte>, gap: nat, rest: seq<Byte>, data: seq<Byte>)
    requires fill + rest == data && (gap == 0 || fill == [])
    ensures text + fill + Zeros(gap) + rest == text + Zeros(gap) + data
    ensures gap == 0 ==> text + Zeros(gap) + data == text + data
  {
    if gap == 0 {
      assert Zeros(gap) == [] && text + [] == text;
      assert text + fill + [] + rest == text + data;
    } else {
      assert text + [] + Zeros(gap) + rest == text + Zeros(gap) + data;
    }
  }

  lemma SliceGrow<T>(t: seq<T>, a: nat, i: nat, b: seq<T>, n: nat)
    requires a <= i && i + |b| <= |t| && b == t[i..i + |b|] && n <= |b|
    ensures t[a..i] + b[..n] == t[a..i + n]
  {}

  lemma SliceIn<T>(t: seq<T>, i: nat, b: seq<T>, off: nat, len: nat)
    requires SliceIs(t, i, b) && off + len <= |b|
    ensures i + off + len <= |t| && t[i + off..i + off + len] == b[off..off + len]
  {
    var u := t[i + off..i + off + len];
    forall k | 0 <= k < |u|
      ensures u[k] == b[off..off + len][k]
    {
      assert t[i..i + |b|][off + k] == b[off + k];
    }
  }

  /** The blocks a purge returns to the map form the path that `freeblocks` follows. */
  lemma BeforePath(m: Medium, marked: set<nat>, start: nat)
    requires start < |m| && !Follow(m, marked, start).complete
    ensures var w := Follow(m, marked, start);
            var path := Before(w.visited, w.stop);
            && (forall k :: 0 <= k < |path| ==> path[k] < |m| && path[k] != w.stop)
            && (path == [] ==> start == w.stop)
            && (path != [] ==> start == path[0])
            && (forall k :: 0 <= k < |path| - 1 ==> LinkAt(m, path, k))
            && (path != [] ==> At(m, path[|path| - 1]).Data? && At(m, path[|path| - 1]).next == w.stop)
  {
    hide Decode, Follow;
    FollowMeaning(m, marked, start);
    var w := Follow(m, marked, start);
    var path := Before(w.visited, w.stop);
    forall k | 0 <= k < |path| - 1
      ensures LinkAt(m, path, k)
    {
      assert LinkAt(m, w.visited, k);
    }
    if path != [] && |path| < |w.visited| {
      assert LinkAt(m, w.visited, |path| - 1);
    }
  }

  lemma FoundStep(m: Medium, k: nat)
    requires k <= |m|
    ensures k == 0 ==> Found(m, k) == [] && ToSet(Dirs(m, k)) == {}
    ensures k > 0 && At(m, k - 1).Dir? ==>
              && Found(m, k) == Found(m, k - 1) + [EntryOf(m, k - 1)]
              && ToSet(Dirs(m, k)) == ToSet(Dirs(m, k - 1)) + {k - 1}
    ensures k > 0 && !At(m, k - 1).Dir? ==> Found(m, k) == Found(m, k - 1) && Dirs(m, k) == Dirs(m, k - 1)
  {
    hide Decode;
  }

  /** A walk from `start` has visited `visited`, holding `length` bytes, and stands at bno. */
  ghost predicate Walking(m: Medium, low: set<nat>, start: nat, visited: seq<nat>, bno: nat, length: nat) {
    && bno < |m| && start < |m|
    && low + ToSet(visited) - ToSet(visited) == low
    && length == |Text(m, visited)|
    && var w := Follow(m, low + ToSet(visited), bno);
    Follow(m, low, start) == Walk(visited + w.visited, w.complete, w.stop)
  }

  lemma WalkStart(m: Medium, low: set<nat>, start: nat)
    requires start < |m|
    ensures Walking(m, low, start, [], start, 0)
  {
    hide Decode;
    assert low + ToSet([]) == low;
    var w := Follow(m, low, start);
    assert [] + w.visited == w.visited;
  }

  lemma TextSnoc(m: Medium, c: seq<nat>, b: nat)
    requires b < |m|
    ensures |Text(m, c + [b])| == |Text(m, c)| + |Bytes(At(m, b))|
  {
    hide Decode, Bytes;
    TextConcat(m, c, [b]);
    assert Text(m, [b]) == Bytes(At(m, b)) + Text(m, []);
  }

  lemma WalkStep(m: Medium, low: set<nat>, start: nat, visited: seq<nat>, bno: nat, length: nat)
    requires Walking(m, low, start, visited, bno, length)
    ensures start < |m| && bno < |m| && low + ToSet(visited) - ToSet(visited) == low
    ensures var w := Follow(m, low, start);
            if bno in low + ToSet(visited) || !(At(m, bno).Data? || At(m, bno).End?) then w == Walk(visited, false, bno)
            else
              && ToSet(visited + [bno]) == ToSet(visited) + {bno}
              && bno in Unmarked(m, low + ToSet(visited))
              && if At(m, bno).End? then
                   w == Walk(visited + [bno], true, bno) && |Text(m, visited + [bno])| == length + At(m, bno).len
                 else At(m, bno).next < |m| && Walking(m, low, start, visited + [bno], At(m, bno).next, length + DLEN)
  {
    hide Decode, Text, Bytes;
    DecodedData(m[bno], |m|);
    assert visited + [] == visited;
    TextSnoc(m, visited, bno);
    if bno !in low + ToSet(visited) && At(m, bno).Data? {
      assert low + ToSet(visited + [bno]) == low + ToSet(visited) + {bno};
      var w := Follow(m, low + ToSet(visited) + {bno}, At(m, bno).next);
      assert visited + ([bno] + w.visited) == visited + [bno] + w.visited;
    }
  }

  /** `tinyfsattach` on a device: mounts it as the specification says, whatever it holds; and a
      medium that recovers some files is mounted unchanged, showing exactly these. */
  method Attach(m: array<Block>) returns (fs: Tfs?)
    requires m.Length <= NOTABNO
    modifies m
    ensures fs == null <==> m.Length < 3
    ensures fs == null ==> m[..] == old(m[..])
    ensures fs != null ==>
              && fresh(fs) && fresh(fs.bits) && fs.medium == m && fs.Valid()
              && fs.State() == Mount(old(m[..]))
              && Table(m[..], fs.f, fs.chains, fs.own, fs.Low(), |fs.f|)
              && Holds(m[..], CatOf(fs.f, fs.chains, fs.own))
    ensures fs != null ==> forall shown, tidy :: Recovers(old(m[..]), shown, tidy) ==>
              m[..] == old(m[..]) && fs.Durable() == shown && (tidy ==> fs.Clean() && fs.Named())
  {
    hide Decode, Table, Holds, Recovers, Marked, Found, Dirs, CatOf, OnMedium, TidyTable, Text, NoDup;
    if m.Length < 3 {
      return null;
    }
    ghost var m0 := m[..];
    var t := new Tfs(m);
    t.FindFiles();
    t.FollowFiles();
    t.chains, t.own := MountChains(m0);
    TableMore(m[..], t.f, t.chains, t.own, t.Low(), Marked(t.bits[..]));
    fs := t;
  }

  lemma TableMore(m: Medium, files: seq<Tfile>, chains: seq<seq<nat>>, own: Owners, marked: set<nat>, marked': set<nat>)
    requires Table(m, files, chains, own, marked, |files|) && marked <= marked'
    ensures Table(m, files, chains, own, marked', |files|)
  {}

  /** The chains of a mounted medium, with what `Valid` needs if the medium recovers any files. */
  lemma MountChains(m: Medium) returns (chains: seq<seq<nat>>, own: Owners)
    ensures var s := Mount(m);
            && |s.m| == |m| && |chains| == |s.files|
            && Table(s.m, s.files, chains, own, s.marked, |s.files|)
            && Holds(s.m, CatOf(s.files, chains, own))
            && forall shown, tidy :: Recovers(m, shown, tidy) ==>
                 && s.m == m && OnMedium(m, s.files, chains, own) == shown
                 && (tidy ==> TidyTable(m, s.files, chains) && AllNamed(s.files))
  {
    hide Table, Holds, CatOf, OnMedium, TidyTable, Decode, Mount, ShownBy, AllTidy;
    if some, neat :| Recovers(m, some, neat) && (neat || forall shown :: !Recovers(m, shown, true)) {
      chains, own := RecoveryIsMounting(m, some, neat);
      forall shown, tidy | Recovers(m, shown, tidy)
        ensures shown == some
      {
        RecoversUnique(m, some, neat, shown, tidy);
      }
    } else {
      chains, own := MountSound(m);
    }
  }

  lemma RecoversUnique(m: Medium, shown: Shown, tidy: bool, shown': Shown, tidy': bool)
    requires Recovers(m, shown, tidy) && Recovers(m, shown', tidy')
    ensures shown == shown'
  {
    hide Holds, AllTidy, ShownBy;
    var cat :| Holds(m, cat) && (tidy ==> AllTidy(m, cat)) && ShownBy(m, cat) == shown;
    var cat' :| Holds(m, cat') && (tidy' ==> AllTidy(m, cat')) && ShownBy(m, cat') == shown';
    CatalogueUnique(m, cat, cat');
  }
}